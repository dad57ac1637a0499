/** Which snapshots the cleanup algorithms delete (client/cleanup.cc, XSnapshots of client/types.cc). */
module Cleanup {
  import opened Sequences
  import Store

  datatype XSnapshot = XSnapshot(kind: Store.SnapshotType, num: nat, date: int, preNum: nat, cleanup: string)

  const NUMBER_MIN_AGE := 1800
  const NUMBER_LIMIT: nat := 50
  const TIMELINE_MIN_AGE := 1800
  const TIMELINE_LIMITS: seq<nat> := [10, 10, 10, 10]

  /** What localtime makes of a date, as far as it is looked at. */
  datatype Tm = Tm(year: int, mon: int, mday: int, hour: int)

  predicate EqualYear(a: Tm, b: Tm) {
    a.year == b.year
  }

  predicate EqualMonth(a: Tm, b: Tm) {
    EqualYear(a, b) && a.mon == b.mon
  }

  predicate EqualDay(a: Tm, b: Tm) {
    EqualMonth(a, b) && a.mday == b.mday
  }

  predicate EqualHour(a: Tm, b: Tm) {
    EqualDay(a, b) && a.hour == b.hour
  }

  datatype Period = Hour | Day | Month | Year

  /** The kinds of slots, in the order in which they are filled. */
  const PERIODS := [Hour, Day, Month, Year]

  predicate Same(p: Period, a: Tm, b: Tm) {
    match p
    case Hour => EqualHour(a, b)
    case Day => EqualDay(a, b)
    case Month => EqualMonth(a, b)
    case Year => EqualYear(a, b)
  }

  /** The scan of is_first over the rest of the list behind a snapshot. */
  predicate IsFirst(x: XSnapshot, rest: seq<XSnapshot>, p: Period, tm: int -> Tm) {
    || rest == []
    || !Same(p, tm(x.date), tm(rest[0].date))
    || (!(x.date > rest[0].date) && IsFirst(x, rest[1..], p, tm))
  }

  /** Dates do not increase along the list. */
  ghost predicate NewestFirst(s: seq<XSnapshot>) {
    forall i, j :: 0 <= i < j < |s| ==> s[i].date >= s[j].date
  }

  /** A period is one stretch of time: what lies between two of its dates belongs to it. */
  ghost predicate Contiguous(tm: int -> Tm) {
    forall p, a, b, c :: a <= b <= c && Same(p, tm(a), tm(c)) ==> Same(p, tm(a), tm(b)) && Same(p, tm(b), tm(c))
  }

  lemma LaterIsOlder(x: XSnapshot, rest: seq<XSnapshot>, y: XSnapshot)
    requires NewestFirst([x] + rest) && y in rest
    ensures y.date <= rest[0].date <= x.date
  {
    var s := [x] + rest;
    var j :| 0 <= j < |rest| && rest[j] == y;
    assert s[0] == x && s[1] == rest[0] && s[j + 1] == y;
  }

  lemma SkipSecond(x: XSnapshot, rest: seq<XSnapshot>)
    requires NewestFirst([x] + rest) && rest != []
    ensures NewestFirst([x] + rest[1..])
  {
    var s, t := [x] + rest, [x] + rest[1..];
    forall i, j | 0 <= i < j < |t| ensures t[i].date >= t[j].date {
      assert t[j] == s[j + 1] && t[i] == s[if i == 0 then 0 else i + 1];
    }
  }

  /** In a newest-first list the scan finds out whether no strictly older snapshot of the same period follows. */
  lemma {:induction false} IsFirstIff(x: XSnapshot, rest: seq<XSnapshot>, p: Period, tm: int -> Tm)
    requires NewestFirst([x] + rest) && Contiguous(tm)
    ensures IsFirst(x, rest, p, tm) <==> forall y :: y in rest && Same(p, tm(x.date), tm(y.date)) ==> y.date == x.date
  {
    if rest != [] {
      if !Same(p, tm(x.date), tm(rest[0].date)) {
        forall y | y in rest ensures !Same(p, tm(x.date), tm(y.date)) {
          LaterIsOlder(x, rest, y);
          SameSymmetric(p, tm(x.date), tm(y.date));
          SameSymmetric(p, tm(x.date), tm(rest[0].date));
        }
      } else {
        SkipSecond(x, rest);
        IsFirstIff(x, rest[1..], p, tm);
        assert rest == [rest[0]] + rest[1..];
        LaterIsOlder(x, rest, rest[0]);
      }
    }
  }

  lemma SameSymmetric(p: Period, a: Tm, b: Tm)
    ensures Same(p, a, b) == Same(p, b, a)
  {
  }

  /** First of a coarser period is first of every finer one. */
  lemma {:induction false} FirstNests(x: XSnapshot, rest: seq<XSnapshot>, l: nat, m: nat, tm: int -> Tm)
    requires l <= m < |PERIODS| && IsFirst(x, rest, PERIODS[m], tm)
    ensures IsFirst(x, rest, PERIODS[l], tm)
  {
    if rest != [] && Same(PERIODS[l], tm(x.date), tm(rest[0].date)) {
      FirstNests(x, rest[1..], l, m, tm);
    }
  }

  /** The slots are filled kind after kind: n slots of kind l are in use and all earlier kinds are full. */
  function Selected(s: seq<XSnapshot>, limits: seq<nat>, l: nat, n: nat, tm: int -> Tm): (mask: seq<bool>)
    requires |limits| == |PERIODS| && l <= |PERIODS|
    ensures |mask| == |s|
    decreases |s|, |PERIODS| - l
  {
    if s == [] then []
    else if l == |PERIODS| then [false] + Selected(s[1..], limits, l, n, tm)
    else if n >= limits[l] then Selected(s, limits, l + 1, 0, tm)
    else if IsFirst(s[0], s[1..], PERIODS[l], tm) then [true] + Selected(s[1..], limits, l, n + 1, tm)
    else [false] + Selected(s[1..], limits, l, n, tm)
  }

  /** The snapshots whose mark is as given. */
  function Masked(s: seq<XSnapshot>, mask: seq<bool>, mark: bool): seq<XSnapshot>
    requires |mask| == |s|
  {
    if s == [] then [] else (if mask[0] == mark then [s[0]] else []) + Masked(s[1..], mask[1..], mark)
  }

  function Survivors(s: seq<XSnapshot>, limits: seq<nat>, l: nat, n: nat, tm: int -> Tm): seq<XSnapshot>
    requires |limits| == |PERIODS| && l <= |PERIODS|
  {
    Masked(s, Selected(s, limits, l, n, tm), true)
  }

  function Rejects(s: seq<XSnapshot>, limits: seq<nat>, l: nat, n: nat, tm: int -> Tm): seq<XSnapshot>
    requires |limits| == |PERIODS| && l <= |PERIODS|
  {
    Masked(s, Selected(s, limits, l, n, tm), false)
  }

  lemma {:induction false} MaskedFrom(s: seq<XSnapshot>, mask: seq<bool>, mark: bool)
    requires |mask| == |s|
    ensures forall x :: x in Masked(s, mask, mark) ==> x in s
    ensures NewestFirst(s) ==> NewestFirst(Masked(s, mask, mark))
  {
    if s != [] {
      MaskedFrom(s[1..], mask[1..], mark);
      assert s == [s[0]] + s[1..];
      if NewestFirst(s) {
        assert forall x :: x in s[1..] ==> x.date <= s[0].date;
      }
    }
  }

  lemma SkipFull(s: seq<XSnapshot>, limits: seq<nat>, l: nat, n: nat, tm: int -> Tm)
    requires |limits| == |PERIODS| && l < |PERIODS| && n >= limits[l]
    ensures Selected(s, limits, l, n, tm) == Selected(s, limits, l + 1, 0, tm)
  {
  }

  lemma TakeFirst(s: seq<XSnapshot>, limits: seq<nat>, l: nat, n: nat, tm: int -> Tm)
    requires |limits| == |PERIODS| && l < |PERIODS| && n < limits[l] && s != [] && IsFirst(s[0], s[1..], PERIODS[l], tm)
    ensures Survivors(s, limits, l, n, tm) == [s[0]] + Survivors(s[1..], limits, l, n + 1, tm)
    ensures Rejects(s, limits, l, n, tm) == Rejects(s[1..], limits, l, n + 1, tm)
  {
  }

  lemma PassFirst(s: seq<XSnapshot>, limits: seq<nat>, l: nat, n: nat, tm: int -> Tm)
    requires |limits| == |PERIODS| && l <= |PERIODS| && s != []
    requires l < |PERIODS| ==> n < limits[l] && !IsFirst(s[0], s[1..], PERIODS[l], tm)
    ensures Survivors(s, limits, l, n, tm) == Survivors(s[1..], limits, l, n, tm)
    ensures Rejects(s, limits, l, n, tm) == [s[0]] + Rejects(s[1..], limits, l, n, tm)
  {
  }

  lemma FirstAmongFewer(x: XSnapshot, rest: seq<XSnapshot>, fewer: seq<XSnapshot>, p: Period, tm: int -> Tm)
    requires NewestFirst([x] + rest) && NewestFirst(fewer) && Contiguous(tm) && IsFirst(x, rest, p, tm)
    requires forall y :: y in fewer ==> y in rest
    ensures IsFirst(x, fewer, p, tm)
  {
    forall y | y in rest ensures x.date >= y.date {
      var j :| 0 <= j < |rest| && rest[j] == y;
      assert ([x] + rest)[0] == x && ([x] + rest)[j + 1] == y;
    }
    assert NewestFirst([x] + fewer);
    IsFirstIff(x, rest, p, tm);
    IsFirstIff(x, fewer, p, tm);
  }

  /** Cleaning up again changes nothing: every survivor is selected again. */
  lemma {:induction false} Idempotent(s: seq<XSnapshot>, limits: seq<nat>, l: nat, n: nat, tm: int -> Tm)
    requires |limits| == |PERIODS| && l <= |PERIODS| && NewestFirst(s) && Contiguous(tm)
    ensures Rejects(Survivors(s, limits, l, n, tm), limits, l, n, tm) == []
    decreases |s|, |PERIODS| - l
  {
    if s != [] {
      var rest := s[1..];
      assert s == [s[0]] + rest;
      if l < |PERIODS| && n >= limits[l] {
        Idempotent(s, limits, l + 1, 0, tm);
        SkipFull(s, limits, l, n, tm);
        SkipFull(Survivors(s, limits, l, n, tm), limits, l, n, tm);
      } else if l < |PERIODS| && IsFirst(s[0], rest, PERIODS[l], tm) {
        var kept := Survivors(rest, limits, l, n + 1, tm);
        Idempotent(rest, limits, l, n + 1, tm);
        MaskedFrom(rest, Selected(rest, limits, l, n + 1, tm), true);
        FirstAmongFewer(s[0], rest, kept, PERIODS[l], tm);
        TakeFirst(s, limits, l, n, tm);
        assert ([s[0]] + kept)[1..] == kept;
        TakeFirst([s[0]] + kept, limits, l, n, tm);
      } else {
        Idempotent(rest, limits, l, n, tm);
        PassFirst(s, limits, l, n, tm);
      }
    }
  }

  /** Whatever is kept is the oldest of its hour. */
  lemma {:induction false} SelectedAreFirst(s: seq<XSnapshot>, limits: seq<nat>, l: nat, n: nat, tm: int -> Tm, k: nat)
    requires |limits| == |PERIODS| && l <= |PERIODS| && k < |s| && Selected(s, limits, l, n, tm)[k]
    ensures IsFirst(s[k], s[k + 1..], Hour, tm)
    decreases |s|, |PERIODS| - l
  {
    if l < |PERIODS| && n >= limits[l] {
      SelectedAreFirst(s, limits, l + 1, 0, tm, k);
    } else if k == 0 {
      FirstNests(s[0], s[1..], 0, l, tm);
    } else {
      assert s[k + 1..] == s[1..][k..];
      var n' := if l < |PERIODS| && IsFirst(s[0], s[1..], PERIODS[l], tm) then n + 1 else n;
      SelectedAreFirst(s[1..], limits, l, n', tm, k - 1);
    }
  }

  function Sum(limits: seq<nat>): nat {
    if limits == [] then 0 else limits[0] + Sum(limits[1..])
  }

  /** No more is kept than there are slots. */
  lemma {:induction false} SurvivorsBounded(s: seq<XSnapshot>, limits: seq<nat>, l: nat, n: nat, tm: int -> Tm)
    requires |limits| == |PERIODS| && l <= |PERIODS| && (l < |PERIODS| ==> n <= limits[l])
    ensures |Survivors(s, limits, l, n, tm)| + (if l < |PERIODS| then n else 0) <= Sum(limits[l..])
    decreases |s|, |PERIODS| - l
  {
    if s == [] {
      if l < |PERIODS| { assert limits[l..][0] == limits[l]; }
    } else if l == |PERIODS| {
      SurvivorsBounded(s[1..], limits, l, n, tm);
    } else if n >= limits[l] {
      assert limits[l..][0] == limits[l] && limits[l..][1..] == limits[l + 1..];
      SurvivorsBounded(s, limits, l + 1, 0, tm);
    } else if IsFirst(s[0], s[1..], PERIODS[l], tm) {
      SurvivorsBounded(s[1..], limits, l, n + 1, tm);
    } else {
      SurvivorsBounded(s[1..], limits, l, n, tm);
    }
  }

  function Count(mask: seq<bool>): nat {
    if mask == [] then 0 else (if mask[0] then 1 else 0) + Count(mask[1..])
  }

  /** The slots of one kind go to the first so many firsts of their period, counted from where the kinds before were
      full; the next kind begins right where they run out. */
  lemma {:induction false} SectionEnds(s: seq<XSnapshot>, limits: seq<nat>, l: nat, n: nat, tm: int -> Tm)
    returns (cut: nat)
    requires |limits| == |PERIODS| && l < |PERIODS| && n <= limits[l]
    ensures cut <= |s| && FirstsOnly(s, Selected(s, limits, l, n, tm), cut, PERIODS[l], tm)
    ensures n + Count(Selected(s, limits, l, n, tm)[..cut]) <= limits[l]
    ensures cut < |s| ==> n + Count(Selected(s, limits, l, n, tm)[..cut]) == limits[l]
    ensures Selected(s, limits, l, n, tm)[cut..] == Selected(s[cut..], limits, l + 1, 0, tm)
  {
    var mask := Selected(s, limits, l, n, tm);
    if s == [] || n == limits[l] {
      cut := 0;
      assert s[0..] == s && mask[0..] == mask;
    } else {
      var first := IsFirst(s[0], s[1..], PERIODS[l], tm);
      var n' := if first then n + 1 else n;
      var rest := Selected(s[1..], limits, l, n', tm);
      var c := SectionEnds(s[1..], limits, l, n', tm);
      cut := c + 1;
      assert mask == [first] + rest;
      MoreFirsts(s, first, rest, c, PERIODS[l], tm);
      assert mask[..cut] == [first] + rest[..c];
      assert mask[cut..] == rest[c..] && s[cut..] == s[1..][c..];
    }
  }

  /** Up to cut, exactly the firsts of a period are marked. */
  ghost predicate FirstsOnly(s: seq<XSnapshot>, mask: seq<bool>, cut: nat, p: Period, tm: int -> Tm)
    requires cut <= |s| == |mask|
  {
    forall k :: 0 <= k < cut ==> (mask[k] <==> IsFirst(s[k], s[k + 1..], p, tm))
  }

  lemma MoreFirsts(s: seq<XSnapshot>, first: bool, rest: seq<bool>, c: nat, p: Period, tm: int -> Tm)
    requires s != [] && |rest| == |s| - 1 && c <= |rest| && FirstsOnly(s[1..], rest, c, p, tm)
    requires first == IsFirst(s[0], s[1..], p, tm)
    ensures FirstsOnly(s, [first] + rest, c + 1, p, tm)
  {
  }

  /** Two moments in the same hour (0), day (1), month (2) or year (3). */
  predicate SamePeriod(l: nat, a: Tm, b: Tm) {
    a.year == b.year && (l < 3 ==> a.mon == b.mon) && (l < 2 ==> a.mday == b.mday) && (l < 1 ==> a.hour == b.hour)
  }

  /** s[k] is the oldest of its period in a list that has the newest first. */
  ghost predicate OldestOf(s: seq<XSnapshot>, k: nat, l: nat, tm: int -> Tm)
    requires k < |s|
  {
    forall j :: k < j < |s| && SamePeriod(l, tm(s[k].date), tm(s[j].date)) ==> s[j].date == s[k].date
  }

  lemma FirstIsOldest(s: seq<XSnapshot>, k: nat, l: nat, tm: int -> Tm)
    requires NewestFirst(s) && Contiguous(tm) && k < |s| && l < |PERIODS|
    ensures IsFirst(s[k], s[k + 1..], PERIODS[l], tm) <==> OldestOf(s, k, l, tm)
  {
    var rest := s[k + 1..];
    assert [s[k]] + rest == s[k..];
    IsFirstIff(s[k], rest, PERIODS[l], tm);
    forall a, b ensures Same(PERIODS[l], a, b) == SamePeriod(l, a, b) {}
    if OldestOf(s, k, l, tm) {
      forall y | y in rest && Same(PERIODS[l], tm(s[k].date), tm(y.date)) ensures y.date == s[k].date {
        var j :| 0 <= j < |rest| && rest[j] == y;
        assert s[k + 1 + j] == y;
      }
    } else {
      var j :| k < j < |s| && SamePeriod(l, tm(s[k].date), tm(s[j].date)) && s[j].date != s[k].date;
      assert rest[j - k - 1] == s[j];
    }
  }

  lemma {:induction false} CountIsSize(mask: seq<bool>, a: nat, b: nat)
    requires a <= b <= |mask|
    ensures |set k | a <= k < b && mask[k]| == Count(mask[a..b])
    decreases b - a
  {
    var marked := set k | a <= k < b && mask[k];
    if a < b {
      CountIsSize(mask, a + 1, b);
      assert mask[a..b] == [mask[a]] + mask[a + 1..b];
      assert marked == (if mask[a] then {a} else {}) + set k | a + 1 <= k < b && mask[k];
    } else {
      assert marked == {};
    }
  }

  ghost predicate Distinct(s: seq<XSnapshot>) {
    forall i, j :: 0 <= i < j < |s| ==> s[i] != s[j]
  }

  lemma {:induction false} RejectedIff(s: seq<XSnapshot>, mask: seq<bool>, k: nat)
    requires |mask| == |s| && k < |s| && Distinct(s)
    ensures s[k] in Masked(s, mask, false) <==> !mask[k]
  {
    MaskedFrom(s[1..], mask[1..], false);
    if k > 0 {
      RejectedIff(s[1..], mask[1..], k - 1);
    }
  }

  /** The slots of kind l, all from a on: they are given to the oldest of each hour, day, month or year. */
  ghost predicate SlotsGiven(s: seq<XSnapshot>, rejects: seq<XSnapshot>, a: nat, b: nat, l: nat, limit: nat,
                             tm: int -> Tm)
    requires a <= b <= |s|
  {
    && (forall k :: a <= k < b ==> (s[k] !in rejects <==> OldestOf(s, k, l, tm)))
    && |set k | a <= k < b && s[k] !in rejects| <= limit
    && (b < |s| ==> |set k | a <= k < b && s[k] !in rejects| == limit)
  }

  lemma MarkedAreKept(s: seq<XSnapshot>, mask: seq<bool>, a: nat, b: nat)
    requires |mask| == |s| && a <= b <= |s| && Distinct(s)
    ensures forall k :: 0 <= k < |s| ==> (s[k] !in Masked(s, mask, false) <==> mask[k])
    ensures |set k | a <= k < b && s[k] !in Masked(s, mask, false)| == Count(mask[a..b])
  {
    forall k | 0 <= k < |s| ensures s[k] !in Masked(s, mask, false) <==> mask[k] {
      RejectedIff(s, mask, k);
    }
    CountIsSize(mask, a, b);
    assert (set k | a <= k < b && s[k] !in Masked(s, mask, false)) == set k | a <= k < b && mask[k];
  }

  lemma FirstsAreOldest(s: seq<XSnapshot>, mask: seq<bool>, a: nat, cut: nat, l: nat, tm: int -> Tm)
    requires |mask| == |s| && a + cut <= |s| && l < |PERIODS| && NewestFirst(s) && Contiguous(tm)
    requires FirstsOnly(s[a..], mask[a..], cut, PERIODS[l], tm)
    ensures forall k :: a <= k < a + cut ==> (mask[k] <==> OldestOf(s, k, l, tm))
  {
    forall k | a <= k < a + cut ensures mask[k] <==> OldestOf(s, k, l, tm) {
      FirstIsOldest(s, k, l, tm);
      assert mask[a..][k - a] == mask[k] && s[a..][k - a] == s[k] && s[a..][k - a + 1..] == s[k + 1..];
    }
  }

  /** Where the slots of kind l are filled, when all kinds before are full at a. */
  lemma NextSlots(s: seq<XSnapshot>, limits: seq<nat>, mask: seq<bool>, a: nat, l: nat, tm: int -> Tm)
    returns (b: nat)
    requires |limits| == |PERIODS| && l < |PERIODS| && a <= |s| == |mask| && NewestFirst(s) && Contiguous(tm)
    requires Distinct(s)
    requires mask[a..] == Selected(s[a..], limits, l, 0, tm)
    ensures a <= b <= |s| && SlotsGiven(s, Masked(s, mask, false), a, b, l, limits[l], tm)
    ensures mask[b..] == Selected(s[b..], limits, l + 1, 0, tm)
  {
    var cut := SectionEnds(s[a..], limits, l, 0, tm);
    b := a + cut;
    assert mask[a..][..cut] == mask[a..b] && mask[a..][cut..] == mask[b..] && s[a..][cut..] == s[b..];
    FirstsAreOldest(s, mask, a, cut, l, tm);
    MarkedAreKept(s, mask, a, b);
  }

  /** Between two cuts the slots of one kind are given; l is the kind at the first cut. */
  ghost predicate CutsRight(s: seq<XSnapshot>, rejects: seq<XSnapshot>, limits: seq<nat>, cuts: seq<nat>, l: nat,
                            m: nat, tm: int -> Tm)
    requires l <= m < |limits| && |cuts| == |limits| + 1 - l
  {
    var a, b := cuts[m - l], cuts[m - l + 1];
    a <= b <= |s| && SlotsGiven(s, rejects, a, b, m, limits[m], tm)
  }

  lemma {:induction false} CutsFrom(s: seq<XSnapshot>, limits: seq<nat>, mask: seq<bool>, a: nat, l: nat, tm: int -> Tm)
    returns (cuts: seq<nat>)
    requires |limits| == |PERIODS| && l <= |PERIODS| && a <= |s| == |mask|
    requires NewestFirst(s) && Contiguous(tm) && Distinct(s) && mask[a..] == Selected(s[a..], limits, l, 0, tm)
    ensures |cuts| == |limits| + 1 - l && cuts[0] == a && cuts[|cuts| - 1] <= |s|
    ensures forall m :: l <= m < |limits| ==> CutsRight(s, Masked(s, mask, false), limits, cuts, l, m, tm)
    ensures forall k :: cuts[|cuts| - 1] <= k < |s| ==> s[k] in Masked(s, mask, false)
    decreases |PERIODS| - l
  {
    if l == |PERIODS| {
      NothingKept(s, limits, mask, a, tm);
      cuts := [a];
    } else {
      var b := NextSlots(s, limits, mask, a, l, tm);
      var rest := CutsFrom(s, limits, mask, b, l + 1, tm);
      cuts := [a] + rest;
      forall m | l <= m < |limits| ensures CutsRight(s, Masked(s, mask, false), limits, cuts, l, m, tm) {
        if m > l { assert CutsRight(s, Masked(s, mask, false), limits, rest, l + 1, m, tm); }
      }
    }
  }

  /** The timeline selection, from the dates alone: down the list come first the hourly, then the daily, monthly and
      yearly slots; each kind keeps the oldest of each of its periods until it is used up, and where all are used up
      everything goes. */
  lemma TimelineSlots(s: seq<XSnapshot>, limits: seq<nat>, tm: int -> Tm) returns (cuts: seq<nat>)
    requires |limits| == 4 && NewestFirst(s) && Contiguous(tm) && Distinct(s)
    ensures |cuts| == 5 && cuts[0] == 0 && cuts[4] <= |s|
    ensures forall l :: 0 <= l < 4 ==> CutsRight(s, Rejects(s, limits, 0, 0, tm), limits, cuts, 0, l, tm)
    ensures forall k :: cuts[4] <= k < |s| ==> s[k] in Rejects(s, limits, 0, 0, tm)
  {
    var mask := Selected(s, limits, 0, 0, tm);
    WholeLists(s, mask);
    cuts := CutsFrom(s, limits, mask, 0, 0, tm);
  }

  lemma WholeLists(s: seq<XSnapshot>, mask: seq<bool>)
    ensures s[0..] == s && mask[0..] == mask
  {
  }

  lemma NothingKept(s: seq<XSnapshot>, limits: seq<nat>, mask: seq<bool>, b: nat, tm: int -> Tm)
    requires |limits| == |PERIODS| && b <= |s| == |mask| && Distinct(s)
    requires mask[b..] == Selected(s[b..], limits, |PERIODS|, 0, tm)
    ensures forall k :: b <= k < |s| ==> s[k] in Masked(s, mask, false)
  {
    forall k | b <= k < |s| ensures s[k] in Masked(s, mask, false) {
      NoSlotLeft(s[b..], limits, tm, k - b);
      assert mask[b..][k - b] == mask[k];
      RejectedIff(s, mask, k);
    }
  }

  lemma {:induction false} NoSlotLeft(s: seq<XSnapshot>, limits: seq<nat>, tm: int -> Tm, k: nat)
    requires |limits| == |PERIODS| && k < |s|
    ensures !Selected(s, limits, |PERIODS|, 0, tm)[k]
  {
    if k > 0 { NoSlotLeft(s[1..], limits, tm, k - 1); }
  }

  method IsFirstScan(tmp: seq<XSnapshot>, i: nat, p: Period, tm: int -> Tm) returns (r: bool)
    requires i < |tmp|
    ensures r == IsFirst(tmp[i], tmp[i + 1..], p, tm)
  {
    var j := i;
    while j < |tmp|
      invariant i <= j <= |tmp|
      invariant IsFirst(tmp[i], tmp[i + 1..], p, tm) == IsFirst(tmp[i], tmp[if j == i then i + 1 else j..], p, tm)
    {
      if j != i {
        assert tmp[j..][0] == tmp[j] && tmp[j..][1..] == tmp[j + 1..];
        if !Same(p, tm(tmp[i].date), tm(tmp[j].date)) { return true; }
        if tmp[i].date > tmp[j].date { return false; }
      }
      j := j + 1;
    }
    return true;
  }

  /** The counters say: all kinds before l are full, n slots of kind l are in use, none after. */
  ghost predicate InUse(used: seq<nat>, limits: seq<nat>, l: nat, n: nat) {
    && |used| == |limits| == |PERIODS| && l <= |PERIODS|
    && (forall m :: 0 <= m < l ==> used[m] == limits[m])
    && (l < |PERIODS| ==> used[l] == n <= limits[l])
    && (forall m :: l < m < |PERIODS| ==> used[m] == 0)
  }

  /** Move on to the first kind that has a slot left. */
  lemma {:induction false} NextKind(s: seq<XSnapshot>, used: seq<nat>, limits: seq<nat>, l: nat, n: nat, tm: int -> Tm)
    returns (l': nat, n': nat)
    requires InUse(used, limits, l, n)
    ensures InUse(used, limits, l', n') && (l' < |PERIODS| ==> n' < limits[l'])
    ensures Selected(s, limits, l, n, tm) == Selected(s, limits, l', n', tm)
    decreases |PERIODS| - l
  {
    l', n' := l, n;
    if l < |PERIODS| && n == limits[l] {
      SkipFull(s, limits, l, n, tm);
      l', n' := NextKind(s, used, limits, l + 1, 0, tm);
    }
  }

  /** The kind of slot that the chain of conditions gives to the first snapshot of a list; |PERIODS| for none. */
  function Given(s: seq<XSnapshot>, used: seq<nat>, limits: seq<nat>, m: nat, tm: int -> Tm): (g: nat)
    requires s != [] && |used| == |limits| == |PERIODS| && m <= |PERIODS|
    ensures m <= g <= |PERIODS|
    decreases |PERIODS| - m
  {
    if m == |PERIODS| then m
    else if used[m] < limits[m] && IsFirst(s[0], s[1..], PERIODS[m], tm) then m
    else Given(s, used, limits, m + 1, tm)
  }

  /** Trying all kinds for every snapshot comes to the same as filling one kind after the other. */
  lemma {:induction false} GivenIsCurrent(s: seq<XSnapshot>, used: seq<nat>, limits: seq<nat>, l: nat, n: nat, m: nat,
                                          tm: int -> Tm)
    requires s != [] && InUse(used, limits, l, n) && m <= |PERIODS| && (l < |PERIODS| ==> n < limits[l])
    requires l < m ==> !IsFirst(s[0], s[1..], PERIODS[l], tm)
    ensures Given(s, used, limits, m, tm)
         == if m <= l < |PERIODS| && IsFirst(s[0], s[1..], PERIODS[l], tm) then l else |PERIODS|
    decreases |PERIODS| - m
  {
    if m < |PERIODS| {
      if m < l {
        GivenIsCurrent(s, used, limits, l, n, m + 1, tm);
      } else if !(m == l && IsFirst(s[0], s[1..], PERIODS[l], tm)) {
        if IsFirst(s[0], s[1..], PERIODS[m], tm) { FirstNests(s[0], s[1..], l, m, tm); }
        GivenIsCurrent(s, used, limits, l, n, m + 1, tm);
      }
    }
  }

  /** One turn of the loop, in terms of what is still to come. */
  lemma Turn(s: seq<XSnapshot>, used: seq<nat>, limits: seq<nat>, l: nat, n: nat, tm: int -> Tm)
    returns (l': nat, n': nat)
    requires s != [] && InUse(used, limits, l, n)
    ensures var g := Given(s, used, limits, 0, tm);
      && InUse(if g < |PERIODS| then used[g := used[g] + 1] else used, limits, l', n')
      && Rejects(s, limits, l, n, tm) == (if g < |PERIODS| then [] else [s[0]]) + Rejects(s[1..], limits, l', n', tm)
  {
    l', n' := NextKind(s, used, limits, l, n, tm);
    GivenIsCurrent(s, used, limits, l', n', 0, tm);
    if l' < |PERIODS| && IsFirst(s[0], s[1..], PERIODS[l'], tm) {
      TakeFirst(s, limits, l', n', tm);
      n' := n' + 1;
    } else {
      PassFirst(s, limits, l', n', tm);
    }
  }

  /** The chain of conditions in do_cleanup_timeline: the first kind that has a slot left and of which this is a
      first. */
  method ChooseKind(tmp: seq<XSnapshot>, it: nat, used: seq<nat>, limits: seq<nat>, tm: int -> Tm) returns (kind: nat)
    requires it < |tmp| && |used| == |limits| == |PERIODS|
    ensures kind == Given(tmp[it..], used, limits, 0, tm)
  {
    kind := 0;
    assert tmp[it..][0] == tmp[it] && tmp[it..][1..] == tmp[it + 1..];
    while kind < |PERIODS|
      invariant kind <= |PERIODS|
      invariant Given(tmp[it..], used, limits, 0, tm) == Given(tmp[it..], used, limits, kind, tm)
    {
      if used[kind] < limits[kind] {
        var first := IsFirstScan(tmp, it, PERIODS[kind], tm);
        if first { return; }
      }
      kind := kind + 1;
    }
  }

  /** The loop of do_cleanup_timeline: tmp, newest first, loses what is to be kept. */
  method SelectTimeline(all: seq<XSnapshot>, limits: seq<nat>, tm: int -> Tm) returns (tmp: seq<XSnapshot>)
    requires |limits| == |PERIODS|
    ensures tmp == Rejects(all, limits, 0, 0, tm)
  {
    var used := [0, 0, 0, 0];
    tmp := all;
    var it := 0;
    ghost var done: seq<XSnapshot>, left := [], all;
    SweepBegins(all, limits, tm);
    while it < |tmp|
      invariant tmp == done + left && it == |done|
      invariant Sweeping(all, limits, used, done, left, tm)
      decreases |tmp| - it
    {
      assert tmp[it..] == left;
      var kind := ChooseKind(tmp, it, used, limits, tm);
      SweepGoesOn(all, limits, used, done, left, kind, tm);
      if kind < |PERIODS| {
        used := used[kind := used[kind] + 1];
        Erased(done, left);
        tmp := tmp[..it] + tmp[it + 1..];
      } else {
        Passed(done, left);
        done := done + [left[0]];
        it := it + 1;
      }
      left := left[1..];
    }
    SweepEnds(all, limits, used, done, tm);
  }

  /** What has been passed over, and what the fill-up will still pass over, is what it passes over in all. */
  ghost predicate Sweeping(all: seq<XSnapshot>, limits: seq<nat>, used: seq<nat>, done: seq<XSnapshot>,
                           left: seq<XSnapshot>, tm: int -> Tm)
    requires |limits| == |PERIODS|
  {
    exists l: nat, n: nat ::
      InUse(used, limits, l, n) && Rejects(all, limits, 0, 0, tm) == done + Rejects(left, limits, l, n, tm)
  }

  lemma SweepBegins(all: seq<XSnapshot>, limits: seq<nat>, tm: int -> Tm)
    requires |limits| == |PERIODS|
    ensures Sweeping(all, limits, [0, 0, 0, 0], [], all, tm)
  {
    assert InUse([0, 0, 0, 0], limits, 0, 0);
    assert Rejects(all, limits, 0, 0, tm) == [] + Rejects(all, limits, 0, 0, tm);
  }

  lemma SweepEnds(all: seq<XSnapshot>, limits: seq<nat>, used: seq<nat>, done: seq<XSnapshot>, tm: int -> Tm)
    requires |limits| == |PERIODS| && Sweeping(all, limits, used, done, [], tm)
    ensures Rejects(all, limits, 0, 0, tm) == done
  {
  }

  lemma SweepGoesOn(all: seq<XSnapshot>, limits: seq<nat>, used: seq<nat>, done: seq<XSnapshot>, left: seq<XSnapshot>,
                    kind: nat, tm: int -> Tm)
    requires |used| == |limits| == |PERIODS| && Sweeping(all, limits, used, done, left, tm) && left != []
    requires kind == Given(left, used, limits, 0, tm)
    ensures kind < |PERIODS| ==> Sweeping(all, limits, used[kind := used[kind] + 1], done, left[1..], tm)
    ensures kind == |PERIODS| ==> Sweeping(all, limits, used, done + [left[0]], left[1..], tm)
  {
    var l: nat, n: nat :|
      InUse(used, limits, l, n) && Rejects(all, limits, 0, 0, tm) == done + Rejects(left, limits, l, n, tm);
    var l', n' := Turn(left, used, limits, l, n, tm);
    var rest := Rejects(left[1..], limits, l', n', tm);
    if kind < |PERIODS| {
      assert [] + rest == rest;
    } else {
      Associative(done, [left[0]], rest);
    }
  }

  lemma Erased(done: seq<XSnapshot>, left: seq<XSnapshot>)
    requires left != []
    ensures (done + left)[..|done|] + (done + left)[|done| + 1..] == done + left[1..]
  {
  }

  lemma Passed(done: seq<XSnapshot>, left: seq<XSnapshot>)
    requires left != []
    ensures done + left == done + [left[0]] + left[1..]
  {
  }
}
