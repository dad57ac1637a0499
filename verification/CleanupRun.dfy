/** The filters every cleanup algorithm applies, and the two algorithms as a whole (client/cleanup.cc). */
module CleanupRun {
  import opened Sequences
  import opened Cleanup

  /** The elements with a property, in their order. */
  function Keep(s: seq<XSnapshot>, good: XSnapshot -> bool): seq<XSnapshot> {
    if s == [] then [] else Keep(s[..|s| - 1], good) + (if good(s[|s| - 1]) then [s[|s| - 1]] else [])
  }

  lemma {:induction false} KeepMembers(s: seq<XSnapshot>, good: XSnapshot -> bool, x: XSnapshot)
    ensures x in Keep(s, good) <==> x in s && good(x)
  {
    if s != [] {
      KeepMembers(s[..|s| - 1], good, x);
      assert s == s[..|s| - 1] + [s[|s| - 1]];
    }
  }

  /** A loop that pushes the good elements to the back of a new list. */
  method KeepLoop(s: seq<XSnapshot>, good: XSnapshot -> bool) returns (r: seq<XSnapshot>)
    ensures r == Keep(s, good)
  {
    r := [];
    for i := 0 to |s|
      invariant r == Keep(s[..i], good)
    {
      assert s[..i + 1][..i] == s[..i];
      if good(s[i]) {
        r := r + [s[i]];
      }
    }
    assert s[..|s|] == s;
  }

  function OldEnough(now: int, minAge: int): XSnapshot -> bool {
    (x: XSnapshot) => !(x.date > now - minAge)
  }

  /** Index of the POST of a PRE; |s| when there is none. */
  function FindPost(s: seq<XSnapshot>, pre: XSnapshot): (i: nat)
    ensures i <= |s| && (i < |s| ==> s[i].kind == Store.POST && s[i].preNum == pre.num)
    ensures forall k :: 0 <= k < i ==> !(s[k].kind == Store.POST && s[k].preNum == pre.num)
  {
    if s == [] || (s[0].kind == Store.POST && s[0].preNum == pre.num) then 0 else 1 + FindPost(s[1..], pre)
  }

  /** Index of the PRE of a POST; |s| when there is none. */
  function FindPre(s: seq<XSnapshot>, post: XSnapshot): (i: nat)
    ensures i <= |s| && (i < |s| ==> s[i].kind == Store.PRE && s[i].num == post.preNum)
    ensures forall k :: 0 <= k < i ==> !(s[k].kind == Store.PRE && s[k].num == post.preNum)
  {
    if s == [] || (s[0].kind == Store.PRE && s[0].num == post.preNum) then 0 else 1 + FindPre(s[1..], post)
  }

  /** filter2's test: the other half of a pair, if it exists, is to be deleted too. */
  function WithPartner(snapshots: seq<XSnapshot>, tmp: seq<XSnapshot>): XSnapshot -> bool {
    (x: XSnapshot) =>
      && (x.kind == Store.PRE ==> (var i := FindPost(snapshots, x); i == |snapshots| || snapshots[i] in tmp))
      && (x.kind == Store.POST ==> (var i := FindPre(snapshots, x); i == |snapshots| || snapshots[i] in tmp))
  }

  function Filter2(snapshots: seq<XSnapshot>, tmp: seq<XSnapshot>): seq<XSnapshot> {
    Keep(tmp, WithPartner(snapshots, tmp))
  }

  predicate Partners(x: XSnapshot, y: XSnapshot) {
    || (x.kind == Store.PRE && y.kind == Store.POST && y.preNum == x.num)
    || (x.kind == Store.POST && y.kind == Store.PRE && x.preNum == y.num)
  }

  /** Numbers are unique, and no two POSTs name the same PRE. */
  ghost predicate Orderly(snapshots: seq<XSnapshot>) {
    && (forall i, j :: 0 <= i < j < |snapshots| ==> snapshots[i].num != snapshots[j].num)
    && (forall x, y ::
          x in snapshots && y in snapshots && x.kind == Store.POST && y.kind == Store.POST && x.preNum == y.preNum ==>
            x == y)
  }

  /** With a snapshot its partner is in the list. */
  ghost predicate PairClosed(snapshots: seq<XSnapshot>, tmp: seq<XSnapshot>) {
    forall x, y :: x in tmp && y in snapshots && Partners(x, y) ==> y in tmp
  }

  lemma SameNum(snapshots: seq<XSnapshot>, x: XSnapshot, y: XSnapshot)
    requires Orderly(snapshots) && x in snapshots && y in snapshots && x.num == y.num
    ensures x == y
  {
  }

  /** In an orderly list the test asks whether every partner is in the list. */
  lemma WithPartnerIff(snapshots: seq<XSnapshot>, tmp: seq<XSnapshot>, x: XSnapshot)
    requires Orderly(snapshots) && x in snapshots
    ensures WithPartner(snapshots, tmp)(x) <==> forall y :: y in snapshots && Partners(x, y) ==> y in tmp
  {
  }

  /** One pass of filter2 yields the greatest part of the list that tears no pair apart. */
  lemma Filter2Greatest(snapshots: seq<XSnapshot>, tmp: seq<XSnapshot>)
    requires Orderly(snapshots) && forall x :: x in tmp ==> x in snapshots
    ensures PairClosed(snapshots, Filter2(snapshots, tmp))
    ensures forall x :: x in Filter2(snapshots, tmp) ==> x in tmp
    ensures forall part: seq<XSnapshot> :: PairClosed(snapshots, part) && (forall x :: x in part ==> x in tmp) ==>
      forall x :: x in part ==> x in Filter2(snapshots, tmp)
  {
    var good := WithPartner(snapshots, tmp);
    forall x ensures x in Filter2(snapshots, tmp) <==> x in tmp && good(x) {
      KeepMembers(tmp, good, x);
    }
    forall x, y | x in Filter2(snapshots, tmp) && y in snapshots && Partners(x, y)
      ensures y in Filter2(snapshots, tmp)
    {
      WithPartnerIff(snapshots, tmp, x);
      WithPartnerIff(snapshots, tmp, y);
      forall z | z in snapshots && Partners(y, z) ensures z == x {
        OnePartner(snapshots, y, x, z);
      }
    }
    forall part: seq<XSnapshot>, x | PairClosed(snapshots, part) && (forall x :: x in part ==> x in tmp) && x in part
      ensures x in Filter2(snapshots, tmp)
    {
      WithPartnerIff(snapshots, tmp, x);
    }
  }

  lemma OnePartner(snapshots: seq<XSnapshot>, x: XSnapshot, y: XSnapshot, z: XSnapshot)
    requires Orderly(snapshots) && y in snapshots && z in snapshots && Partners(x, y) && Partners(x, z)
    ensures y == z
  {
  }

  function ForCleanup(snapshots: seq<XSnapshot>, name: string): seq<XSnapshot> {
    Keep(snapshots, (x: XSnapshot) => x.cleanup == name)
  }

  function Reversed(s: seq<XSnapshot>): (r: seq<XSnapshot>)
    ensures |r| == |s| && forall i :: 0 <= i < |s| ==> r[i] == s[|s| - 1 - i]
  {
    seq(|s|, i requires 0 <= i < |s| => s[|s| - 1 - i])
  }

  lemma ReversedMembers(s: seq<XSnapshot>, x: XSnapshot)
    ensures x in Reversed(s) <==> x in s
  {
    if x in s {
      var i :| 0 <= i < |s| && s[i] == x;
      assert Reversed(s)[|s| - 1 - i] == x;
    }
  }

  /** Candidates that are too young, or whose partner is no candidate, stay. */
  function Doomed(snapshots: seq<XSnapshot>, tmp: seq<XSnapshot>, now: int, minAge: int): seq<XSnapshot> {
    Filter2(snapshots, Keep(tmp, OldEnough(now, minAge)))
  }

  lemma {:induction false} KeepAppend(a: seq<XSnapshot>, b: seq<XSnapshot>, good: XSnapshot -> bool)
    ensures Keep(a + b, good) == Keep(a, good) + Keep(b, good)
  {
    if b == [] {
      assert a + b == a;
    } else {
      var n := |b| - 1;
      assert (a + b)[..|a| + n] == a + b[..n];
      KeepAppend(a, b[..n], good);
    }
  }

  lemma {:induction false} KeepCounts(s: seq<XSnapshot>, good: XSnapshot -> bool, i: nat)
    requires i <= |s|
    ensures |Keep(s[i..], good)| == |set j | i <= j < |s| && good(s[j])|
    decreases |s| - i
  {
    var all := set j | i <= j < |s| && good(s[j]);
    if i < |s| {
      KeepCounts(s, good, i + 1);
      assert s[i..] == [s[i]] + s[i + 1..];
      KeepAppend([s[i]], s[i + 1..], good);
      KeepOne(s[i], good);
      assert all == (if good(s[i]) then {i} else {}) + set j | i + 1 <= j < |s| && good(s[j]);
    } else {
      assert all == {};
    }
  }

  /** What is kept but the last few: elements with at least so many others of the kind behind them. */
  lemma AllButLast(s: seq<XSnapshot>, good: XSnapshot -> bool, limit: nat, i: nat)
    requires i < |s| && forall k, j :: 0 <= k < j < |s| ==> s[k].num != s[j].num
    ensures var kept := Keep(s, good);
      (|kept| > limit && s[i] in kept[..|kept| - limit])
      <==> good(s[i]) && |set j | i < j < |s| && good(s[j])| >= limit
  {
    var kept, before, behind := Keep(s, good), Keep(s[..i], good), Keep(s[i + 1..], good);
    KeepMembers(s, good, s[i]);
    KeepCounts(s, good, i + 1);
    assert (set j | i < j < |s| && good(s[j])) == set j | i + 1 <= j < |s| && good(s[j]);
    if good(s[i]) {
      KeepAt(s, good, i);
      KeepOrder(s, good);
      assert kept[|before|] == s[i] && |kept| == |before| + 1 + |behind|;
      if |kept| > limit && s[i] in kept[..|kept| - limit] {
        var k :| 0 <= k < |kept| - limit && kept[k] == s[i];
        assert k == |before|;
      }
      if |behind| >= limit { assert kept[..|kept| - limit][|before|] == s[i]; }
    }
  }

  lemma KeepAt(s: seq<XSnapshot>, good: XSnapshot -> bool, i: nat)
    requires i < |s| && good(s[i])
    ensures Keep(s, good) == Keep(s[..i], good) + [s[i]] + Keep(s[i + 1..], good)
  {
    var before, behind := s[..i], s[i + 1..];
    assert s == before + ([s[i]] + behind);
    KeepAppend(before, [s[i]] + behind, good);
    KeepAppend([s[i]], behind, good);
    KeepOne(s[i], good);
    Associative(Keep(before, good), [s[i]], Keep(behind, good));
  }

  lemma KeepOne(x: XSnapshot, good: XSnapshot -> bool)
    ensures Keep([x], good) == if good(x) then [x] else []
  {
    assert [x][..0] == [];
  }

  /** What goes in the end: old candidates all of whose partners are old candidates too. */
  lemma DoomedIff(snapshots: seq<XSnapshot>, tmp: seq<XSnapshot>, now: int, minAge: int, x: XSnapshot)
    requires Orderly(snapshots) && x in snapshots
    ensures x in Doomed(snapshots, tmp, now, minAge) <==>
      x in tmp && x.date <= now - minAge
      && forall y :: y in snapshots && Partners(x, y) ==> y in tmp && y.date <= now - minAge
  {
    var old_ := Keep(tmp, OldEnough(now, minAge));
    forall y ensures y in old_ <==> y in tmp && y.date <= now - minAge {
      KeepMembers(tmp, OldEnough(now, minAge), y);
    }
    KeepMembers(old_, WithPartner(snapshots, old_), x);
    WithPartnerIff(snapshots, old_, x);
  }

  /** Under number cleanup, old enough, and with at least limit snapshots under number cleanup behind it. */
  ghost predicate NumberRipe(s: seq<XSnapshot>, i: nat, now: int, minAge: int, limit: nat)
    requires i < |s|
  {
    && s[i].cleanup == "number" && s[i].date <= now - minAge
    && |set j | i < j < |s| && s[j].cleanup == "number"| >= limit
  }

  lemma NumberDeletes(s: seq<XSnapshot>, now: int, minAge: int, limit: nat, i: nat)
    requires Orderly(s) && i < |s|
    ensures var tmp := ForCleanup(s, "number");
      (|tmp| > limit && s[i] in Doomed(s, tmp[..|tmp| - limit], now, minAge))
      <==> NumberRipe(s, i, now, minAge, limit)
           && forall j :: 0 <= j < |s| && Partners(s[i], s[j]) ==> NumberRipe(s, j, now, minAge, limit)
  {
    var tmp := ForCleanup(s, "number");
    var good := (x: XSnapshot) => x.cleanup == "number";
    forall j | 0 <= j < |s|
      ensures (|tmp| > limit && s[j] in tmp[..|tmp| - limit] && s[j].date <= now - minAge)
        <==> NumberRipe(s, j, now, minAge, limit)
    {
      AllButLast(s, good, limit, j);
      assert (set m | j < m < |s| && good(s[m])) == set m | j < m < |s| && s[m].cleanup == "number";
    }
    if |tmp| > limit { DoomedIff(s, tmp[..|tmp| - limit], now, minAge, s[i]); }
  }

  /** What do_cleanup_number deletes; the configuration may override the defaults. */
  method CleanupNumber(snapshots: seq<XSnapshot>, now: int, minAge: int := NUMBER_MIN_AGE, limit: nat := NUMBER_LIMIT)
    returns (deleted: seq<XSnapshot>)
    ensures var tmp := ForCleanup(snapshots, "number");
      deleted == if |tmp| > limit then Doomed(snapshots, tmp[..|tmp| - limit], now, minAge) else []
    ensures Orderly(snapshots) ==> forall x :: x in deleted ==> x in snapshots && x.cleanup == "number"
    ensures Orderly(snapshots) ==> forall i :: 0 <= i < |snapshots| ==>
      (snapshots[i] in deleted <==>
        && NumberRipe(snapshots, i, now, minAge, limit)
        && forall j :: 0 <= j < |snapshots| && Partners(snapshots[i], snapshots[j]) ==>
          NumberRipe(snapshots, j, now, minAge, limit))
  {
    var tmp := KeepLoop(snapshots, (x: XSnapshot) => x.cleanup == "number");
    deleted := [];
    if |tmp| > limit {
      tmp := tmp[..|tmp| - limit];
      tmp := KeepLoop(tmp, OldEnough(now, minAge));
      deleted := KeepLoop(tmp, WithPartner(snapshots, tmp));
    }
    if Orderly(snapshots) {
      forall i | 0 <= i < |snapshots| { NumberDeletes(snapshots, now, minAge, limit, i); }
      DeletedAreKept(snapshots, now, minAge, limit);
    }
  }

  lemma DeletedAreKept(s: seq<XSnapshot>, now: int, minAge: int, limit: nat)
    requires Orderly(s)
    ensures var tmp := ForCleanup(s, "number");
      |tmp| > limit ==>
        forall x :: x in Doomed(s, tmp[..|tmp| - limit], now, minAge) ==> x in s && x.cleanup == "number"
  {
    var tmp := ForCleanup(s, "number");
    forall x | x in tmp ensures x in s && x.cleanup == "number" {
      KeepMembers(s, (x: XSnapshot) => x.cleanup == "number", x);
    }
    if |tmp| > limit { DoomedSafe(s, tmp[..|tmp| - limit], now, minAge); }
  }

  /** What the timeline selection rejects, oldest first; it looks at the newest first. */
  function Unwanted(snapshots: seq<XSnapshot>, limits: seq<nat>, tm: int -> Tm): seq<XSnapshot>
    requires |limits| == |PERIODS|
  {
    Reversed(Rejects(Reversed(ForCleanup(snapshots, "timeline")), limits, 0, 0, tm))
  }

  /** Under timeline cleanup, old enough, and rejected by the selection. */
  ghost predicate TimelineRipe(s: seq<XSnapshot>, x: XSnapshot, limits: seq<nat>, tm: int -> Tm, now: int, minAge: int)
    requires |limits| == |PERIODS|
  {
    && x.cleanup == "timeline" && x.date <= now - minAge
    && x in Rejects(Reversed(ForCleanup(s, "timeline")), limits, 0, 0, tm)
  }

  lemma TimelineDeletes(s: seq<XSnapshot>, limits: seq<nat>, tm: int -> Tm, now: int, minAge: int)
    requires Orderly(s) && |limits| == |PERIODS|
    ensures forall x :: x in Unwanted(s, limits, tm) ==> x in s && x.cleanup == "timeline"
    ensures forall x :: x in s ==>
      (x in Doomed(s, Unwanted(s, limits, tm), now, minAge) <==>
        && TimelineRipe(s, x, limits, tm, now, minAge)
        && forall y :: y in s && Partners(x, y) ==> TimelineRipe(s, y, limits, tm, now, minAge))
  {
    var marked := ForCleanup(s, "timeline");
    var rejects := Rejects(Reversed(marked), limits, 0, 0, tm);
    MaskedFrom(Reversed(marked), Selected(Reversed(marked), limits, 0, 0, tm), false);
    forall x ensures x in Unwanted(s, limits, tm) <==> x in rejects
      ensures x in rejects ==> x in s && x.cleanup == "timeline"
    {
      ReversedMembers(rejects, x);
      ReversedMembers(marked, x);
      KeepMembers(s, (x: XSnapshot) => x.cleanup == "timeline", x);
    }
    forall x | x in s {
      DoomedIff(s, Unwanted(s, limits, tm), now, minAge, x);
    }
  }

  /** What do_cleanup_timeline deletes. */
  method CleanupTimeline(snapshots: seq<XSnapshot>, now: int, tm: int -> Tm, minAge: int := TIMELINE_MIN_AGE,
                         limits: seq<nat> := TIMELINE_LIMITS)
    returns (deleted: seq<XSnapshot>)
    requires |limits| == |PERIODS|
    ensures deleted == Doomed(snapshots, Unwanted(snapshots, limits, tm), now, minAge)
    ensures Orderly(snapshots) ==> forall x :: x in deleted ==> x in snapshots && x.cleanup == "timeline"
    ensures Orderly(snapshots) ==> forall x :: x in snapshots ==>
      (x in deleted <==>
        && TimelineRipe(snapshots, x, limits, tm, now, minAge)
        && forall y :: y in snapshots && Partners(x, y) ==> TimelineRipe(snapshots, y, limits, tm, now, minAge))
  {
    if Orderly(snapshots) {
      TimelineDeletes(snapshots, limits, tm, now, minAge);
      DoomedSafe(snapshots, Unwanted(snapshots, limits, tm), now, minAge);
    }
    var tmp := [];
    ghost var name := (x: XSnapshot) => x.cleanup == "timeline";
    for i := 0 to |snapshots|
      invariant tmp == Reversed(Keep(snapshots[..i], name))
    {
      assert snapshots[..i + 1][..i] == snapshots[..i];
      if snapshots[i].cleanup == "timeline" {
        tmp := [snapshots[i]] + tmp;
      }
    }
    assert snapshots[..|snapshots|] == snapshots;
    tmp := SelectTimeline(tmp, limits, tm);
    tmp := Reversed(tmp);
    tmp := KeepLoop(tmp, OldEnough(now, minAge));
    deleted := KeepLoop(tmp, WithPartner(snapshots, tmp));
  }

  /** Nothing young is deleted, no pair is torn apart, and no more is spared than that demands. */
  lemma DoomedSafe(snapshots: seq<XSnapshot>, tmp: seq<XSnapshot>, now: int, minAge: int)
    requires Orderly(snapshots) && forall x :: x in tmp ==> x in snapshots
    ensures forall x :: x in Doomed(snapshots, tmp, now, minAge) ==> x in tmp && x.date <= now - minAge
    ensures PairClosed(snapshots, Doomed(snapshots, tmp, now, minAge))
    ensures forall part: seq<XSnapshot> ::
      PairClosed(snapshots, part) && (forall x :: x in part ==> x in tmp && x.date <= now - minAge) ==>
      forall x :: x in part ==> x in Doomed(snapshots, tmp, now, minAge)
  {
    var old_ := Keep(tmp, OldEnough(now, minAge));
    forall x ensures x in old_ <==> x in tmp && x.date <= now - minAge {
      KeepMembers(tmp, OldEnough(now, minAge), x);
    }
    Filter2Greatest(snapshots, old_);
  }

  /** Both halves of a pair go, or neither. */
  lemma PairsTogether(snapshots: seq<XSnapshot>, tmp: seq<XSnapshot>, now: int, minAge: int, x: XSnapshot, y: XSnapshot)
    requires Orderly(snapshots) && (forall z :: z in tmp ==> z in snapshots)
    requires x in snapshots && y in snapshots && Partners(x, y)
    ensures x in Doomed(snapshots, tmp, now, minAge) <==> y in Doomed(snapshots, tmp, now, minAge)
  {
    DoomedSafe(snapshots, tmp, now, minAge);
    assert Partners(y, x);
  }

  lemma {:induction false} KeepOrder(s: seq<XSnapshot>, good: XSnapshot -> bool)
    requires forall i, j :: 0 <= i < j < |s| ==> s[i].num != s[j].num
    ensures forall i, j :: 0 <= i < j < |Keep(s, good)| ==> Keep(s, good)[i].num != Keep(s, good)[j].num
  {
    if s != [] {
      var front := s[..|s| - 1];
      KeepOrder(front, good);
      forall x | x in Keep(front, good) ensures x.num != s[|s| - 1].num {
        KeepMembers(front, good, x);
      }
    }
  }

  /** The newest of the snapshots under number cleanup survive, as many as the limit says. */
  lemma NewestSurvive(snapshots: seq<XSnapshot>, now: int, minAge: int, limit: nat, i: nat)
    requires Orderly(snapshots) && limit < |ForCleanup(snapshots, "number")|
    requires |ForCleanup(snapshots, "number")| - limit <= i < |ForCleanup(snapshots, "number")|
    ensures var tmp := ForCleanup(snapshots, "number"); tmp[i] !in Doomed(snapshots, tmp[..|tmp| - limit], now, minAge)
  {
    var tmp := ForCleanup(snapshots, "number");
    var good := (x: XSnapshot) => x.cleanup == "number";
    KeepOrder(snapshots, good);
    forall x | x in tmp[..|tmp| - limit] ensures x in snapshots {
      KeepMembers(snapshots, good, x);
    }
    DoomedSafe(snapshots, tmp[..|tmp| - limit], now, minAge);
  }

  lemma {:induction false} MaskedApart(s: seq<XSnapshot>, mask: seq<bool>)
    requires |mask| == |s| && forall i, j :: 0 <= i < j < |s| ==> s[i].num != s[j].num
    ensures forall x, y :: x in Masked(s, mask, true) && y in Masked(s, mask, false) ==> x.num != y.num
  {
    if s != [] {
      MaskedApart(s[1..], mask[1..]);
      MaskedFrom(s[1..], mask[1..], true);
      MaskedFrom(s[1..], mask[1..], false);
      forall x | x in s[1..] ensures x.num != s[0].num {
        var i :| 0 <= i < |s[1..]| && s[1..][i] == x;
      }
    }
  }

  /** What the timeline selection keeps is not deleted. */
  lemma SelectedSurvive(snapshots: seq<XSnapshot>, now: int, minAge: int, limits: seq<nat>, tm: int -> Tm, x: XSnapshot)
    requires Orderly(snapshots) && |limits| == |PERIODS|
    requires x in Survivors(Reversed(ForCleanup(snapshots, "timeline")), limits, 0, 0, tm)
    ensures x !in Doomed(snapshots, Unwanted(snapshots, limits, tm), now, minAge)
  {
    var good := (x: XSnapshot) => x.cleanup == "timeline";
    var tmp := Reversed(ForCleanup(snapshots, "timeline"));
    var mask := Selected(tmp, limits, 0, 0, tm);
    KeepOrder(snapshots, good);
    MaskedApart(tmp, mask);
    MaskedFrom(tmp, mask, false);
    forall y | y in Reversed(Rejects(tmp, limits, 0, 0, tm)) ensures y in snapshots && y != x {
      ReversedMembers(Rejects(tmp, limits, 0, 0, tm), y);
      ReversedMembers(ForCleanup(snapshots, "timeline"), y);
      KeepMembers(snapshots, good, y);
    }
    DoomedSafe(snapshots, Reversed(Rejects(tmp, limits, 0, 0, tm)), now, minAge);
  }
}
