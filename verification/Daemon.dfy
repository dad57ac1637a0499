/** Every critical section of the daemon as one step, in any order (server/Client.cc, server/MetaSnapper.cc,
    server/Background.cc, server/snapperd.cc). */
module Daemon {
  import opened Sequences
  import opened UseCount
  import opened Requests

  function WithMeta(s: State, c: string, m: MetaSnapper): State {
    s.(metas := s.metas[c := m])
  }

  function Bump(s: State, c: string, delta: int): State
    requires c in s.metas
  {
    WithMeta(s, c, s.metas[c].(counter := s.metas[c].counter + delta))
  }

  /** MetaSnapper::getSnapper. */
  function GetSnapper(s: State, c: string, fresh_: nat): State
    requires c in s.metas
  {
    if s.metas[c].snapper.Loaded? then s else WithMeta(s, c, s.metas[c].(snapper := Loaded(fresh_)))
  }

  function WithClient(s: State, i: nat, cl: Client): State
    requires i < |s.clients|
  {
    s.(clients := s.clients[i := cl])
  }

  /** Snappers stay loaded, and snapshots stay. */
  ghost predicate Grown(s: State, s': State) {
    && (forall c :: c in s.metas && s.metas[c].snapper.Loaded? ==>
          c in s'.metas && s'.metas[c].snapper == s.metas[c].snapper)
    && (forall c :: c in s.metas ==> c in s'.metas)
    && (forall c :: c in s.snapshots ==> c in s'.snapshots && s.snapshots[c] <= s'.snapshots[c])
  }

  lemma GrownIntact(s: State, s': State)
    requires Grown(s, s')
    ensures forall k :: Intact(s, k) ==> Intact(s', k)
    ensures forall cl :: ClientIntact(s, cl) ==> ClientIntact(s', cl)
    ensures forall t :: TaskIntact(s, t) ==> TaskIntact(s', t)
  {
  }

  lemma LoadSound(s: State, c: string, address: nat)
    requires Sound(s) && c in s.metas && Unoccupied(s, address, c)
    ensures Sound(GetSnapper(s, c, address)) && Grown(s, GetSnapper(s, c, address))
    ensures Obtained(s, GetSnapper(s, c, address), c, address)
    ensures GetSnapper(s, c, address).metas[c].snapper.Loaded?
    ensures Uses(GetSnapper(s, c, address), c) == Uses(s, c)
  {
    var s' := GetSnapper(s, c, address);
    if s' != s {
      GrownIntact(s, s');
      forall d: string ensures Counted(s', d) {
        assert Counted(s, d);
      }
      DistinctKept(s, s', c);
    }
  }

  /** One client's uses of one configuration change by delta, and so does the counter. */
  ghost predicate Shifts(cl: Client, cl': Client, c: string, delta: int) {
    forall d: string :: ClientUse(d)(cl') == ClientUse(d)(cl) + (if d == c then delta else 0)
  }

  lemma ClientStep(s: State, i: nat, cl: Client, c: string, delta: int)
    requires Sound(s) && c in s.metas && i < |s.clients| && ClientIntact(s, cl) && Shifts(s.clients[i], cl, c, delta)
    ensures Sound(Bump(WithClient(s, i, cl), c, delta))
  {
    var s' := Bump(WithClient(s, i, cl), c, delta);
    assert Grown(s, s');
    GrownIntact(s, s');
    forall d: string ensures Counted(s', d) {
      assert Counted(s, d);
      TotalUpdate(s.clients, i, cl, ClientUse(d));
    }
    forall x | x in s'.clients ensures ClientIntact(s', x) {
      assert x in s.clients || x == cl;
    }
    forall t | t in s'.tasks ensures TaskIntact(s', t) {
      assert TaskIntact(s, t);
    }
    assert DistinctAddresses(s');
  }

  /** A client changes nothing that counts. */
  lemma ClientKept(s: State, i: nat, cl: Client)
    requires Sound(s) && i < |s.clients| && cl.comparisons == s.clients[i].comparisons
    requires cl.flight == s.clients[i].flight
    ensures Sound(WithClient(s, i, cl))
  {
    var s' := WithClient(s, i, cl);
    assert s.clients[i] in s.clients;
    assert ClientIntact(s, cl);
    forall d: string ensures Counted(s', d) {
      assert Counted(s, d);
      TotalUpdate(s.clients, i, cl, ClientUse(d));
    }
    forall x | x in s'.clients ensures ClientIntact(s', x) {
      assert x in s.clients || x == cl;
      assert ClientIntact(s, x);
    }
    forall t | t in s'.tasks ensures TaskIntact(s', t) {
      assert TaskIntact(s, t);
    }
  }

  lemma ClientAdded(s: State, name: string)
    requires Sound(s)
    ensures Sound(s.(clients := s.clients + [Client(name, [], {}, Idle, false)]))
  {
    var cl := Client(name, [], {}, Idle, false);
    var s' := s.(clients := s.clients + [cl]);
    forall d: string ensures Counted(s', d) {
      assert Counted(s, d);
      TotalAppend(s.clients, cl, ClientUse(d));
    }
    forall x | x in s'.clients ensures ClientIntact(s', x) {
      if x != cl { assert ClientIntact(s, x); }
    }
    forall t | t in s'.tasks ensures TaskIntact(s', t) {
      assert TaskIntact(s, t);
    }
  }

  lemma ClientRemoved(s: State, i: nat)
    requires Sound(s) && i < |s.clients| && s.clients[i].comparisons == [] && s.clients[i].flight.Idle?
    ensures Sound(s.(clients := s.clients[..i] + s.clients[i + 1..]))
  {
    var s' := s.(clients := s.clients[..i] + s.clients[i + 1..]);
    forall d: string ensures Counted(s', d) {
      assert Counted(s, d);
      TotalRemove(s.clients, i, ClientUse(d));
    }
    forall x | x in s'.clients ensures ClientIntact(s', x) {
      assert x in s.clients;
      assert ClientIntact(s, x);
    }
    forall t | t in s'.tasks ensures TaskIntact(s', t) {
      assert TaskIntact(s, t);
    }
  }

  lemma HeldAppend(cl: Client, k: Comparison, d: string)
    ensures ClientUse(d)(cl.(comparisons := cl.comparisons + [k]))
      == ClientUse(d)(cl) + (if d == k.config then 1 else 0)
  {
  }

  lemma HeldRemove(cl: Client, j: nat, d: string)
    requires j < |cl.comparisons|
    ensures ClientUse(d)(cl.(comparisons := Without(cl.comparisons, j)))
      == ClientUse(d)(cl) - (if d == cl.comparisons[j].config then 1 else 0)
  {
    TotalRemove(cl.comparisons, j, HeldFor(d));
  }

  /** Client::delete_comparison gives one use back to every configuration with this Snapper. */
  function DecEqual(metas: map<string, MetaSnapper>, address: nat): map<string, MetaSnapper> {
    map c | c in metas ::
      if metas[c].snapper == Loaded(address) then metas[c].(counter := metas[c].counter - 1) else metas[c]
  }

  /** There is exactly one. */
  lemma DecEqualIsBump(s: State, k: Comparison)
    requires DistinctAddresses(s) && Intact(s, k)
    ensures s.(metas := DecEqual(s.metas, k.address)) == Bump(s, k.config, -1)
  {
  }

  /** A client drops a comparison. */
  function Released(s: State, i: nat, j: nat): State
    requires i < |s.clients| && j < |s.clients[i].comparisons|
  {
    var cl := s.clients[i];
    var s' := WithClient(s, i, cl.(comparisons := Without(cl.comparisons, j)));
    s'.(metas := DecEqual(s.metas, cl.comparisons[j].address))
  }

  lemma ComparisonDeleted(s: State, i: nat, j: nat)
    requires Sound(s) && i < |s.clients| && j < |s.clients[i].comparisons|
    ensures var cl := s.clients[i]; var k := cl.comparisons[j];
      && k.config in s.metas && s.metas[k.config].counter > 0
      && Released(s, i, j) == Bump(WithClient(s, i, cl.(comparisons := Without(cl.comparisons, j))), k.config, -1)
      && Sound(Released(s, i, j))
  {
    var cl := s.clients[i];
    var k := cl.comparisons[j];
    var cl' := cl.(comparisons := Without(cl.comparisons, j));
    assert cl in s.clients && ClientIntact(s, cl) && k in cl.comparisons;
    HolderCounts(s, i, j);
    assert Counted(s, k.config);
    DecEqualIsBump(s, k);
    forall d: string ensures ClientUse(d)(cl') == ClientUse(d)(cl) + (if d == k.config then -1 else 0) {
      HeldRemove(cl, j, d);
    }
    assert ClientIntact(s, cl') by {
      forall x | x in cl'.comparisons ensures x in cl.comparisons { }
    }
    ClientStep(s, i, cl', k.config, -1);
    assert Released(s, i, j) == Bump(WithClient(s, i, cl'), k.config, -1);
  }

  lemma TaskAdded(s: State, t: Task)
    requires Sound(s) && t.config in s.metas && !t.released && TaskIntact(s, t)
    ensures Sound(Bump(s.(tasks := s.tasks + [t]), t.config, 1))
  {
    var s' := Bump(s.(tasks := s.tasks + [t]), t.config, 1);
    assert Grown(s, s');
    GrownIntact(s, s');
    forall d: string ensures Counted(s', d) {
      assert Counted(s, d);
      TotalAppend(s.tasks, t, TaskUse(d));
    }
    forall x | x in s'.tasks ensures TaskIntact(s', x) {
      assert TaskIntact(s, x);
    }
  }

  lemma TaskReleased(s: State)
    requires Sound(s) && s.tasks != [] && !s.tasks[0].released
    ensures var t := s.tasks[0];
      && TaskIntact(s, t) && t.config in s.metas && s.metas[t.config].counter > 0
      && Sound(Bump(s.(tasks := s.tasks[0 := t.(released := true)]), t.config, -1))
  {
    var t := s.tasks[0];
    assert t in s.tasks && TaskIntact(s, t);
    TaskCounts(s, 0);
    assert Counted(s, t.config);
    var s' := Bump(s.(tasks := s.tasks[0 := t.(released := true)]), t.config, -1);
    assert Grown(s, s');
    GrownIntact(s, s');
    forall d: string ensures Counted(s', d) {
      assert Counted(s, d);
      TotalUpdate(s.tasks, 0, t.(released := true), TaskUse(d));
    }
    forall x | x in s'.tasks ensures TaskIntact(s', x) {
      if !x.released { assert x in s.tasks && TaskIntact(s, x); }
    }
  }

  lemma FirstReleased(tasks: seq<Task>, d: string)
    requires tasks != [] && tasks[0].released
    ensures Total(tasks[1..], TaskUse(d)) == Total(tasks, TaskUse(d))
  {
    TotalRemove(tasks, 0, TaskUse(d));
    assert tasks[..0] + tasks[1..] == tasks[1..];
  }

  lemma TaskPopped(s: State)
    requires Sound(s) && s.tasks != [] && s.tasks[0].released
    ensures Sound(s.(tasks := s.tasks[1..]))
  {
    var s' := s.(tasks := s.tasks[1..]);
    forall d: string ensures Counted(s', d) {
      assert Counted(s, d);
      FirstReleased(s.tasks, d);
    }
    forall x | x in s'.tasks ensures TaskIntact(s', x) {
      assert x in s.tasks && TaskIntact(s, x);
    }
    forall x | x in s'.clients ensures ClientIntact(s', x) {
      assert ClientIntact(s, x);
    }
  }

  lemma SnapshotAdded(s: State, c: string, num: nat)
    requires Sound(s) && c in s.snapshots
    ensures Sound(s.(snapshots := s.snapshots[c := s.snapshots[c] + {num}]))
  {
    var s' := s.(snapshots := s.snapshots[c := s.snapshots[c] + {num}]);
    assert Grown(s, s');
    GrownIntact(s, s');
    forall d: string ensures Counted(s', d) {
      assert Counted(s, d);
    }
  }

  function IndexOf(ks: seq<Comparison>, address: nat, num1: nat, num2: nat): (j: nat)
    ensures j <= |ks|
    ensures j < |ks| ==> ks[j].address == address && ks[j].num1 == num1 && ks[j].num2 == num2
    ensures forall m :: 0 <= m < j ==> !(ks[m].address == address && ks[m].num1 == num1 && ks[m].num2 == num2)
  {
    if ks == [] || (ks[0].address == address && ks[0].num1 == num1 && ks[0].num2 == num2) then 0
    else 1 + IndexOf(ks[1..], address, num1, num2)
  }

  predicate Gone(cl: Client, finished: set<string>) {
    cl.zombie && cl.name in finished
  }

  /** The part of the numbers that is deleted before the first that cannot be. */
  function Deletable(nums: seq<nat>, blocked: set<nat>, there: set<nat>): set<nat> {
    if nums == [] || nums[0] in blocked || nums[0] == 0 || nums[0] !in there then {}
    else {nums[0]} + Deletable(nums[1..], blocked, there - {nums[0]})
  }

  lemma CanGoTail(nums: seq<nat>, k: nat, blocked: set<nat>, there: set<nat>)
    requires 0 < k < |nums| && CanGo(nums, 0, blocked, there)
    ensures CanGo(nums, k, blocked, there) <==> CanGo(nums[1..], k - 1, blocked, there - {nums[0]})
  {
    assert nums[1..][..k - 1] == nums[1..k] && nums[..k] == [nums[0]] + nums[1..k];
  }

  lemma FirstCanGoTail(nums: seq<nat>, k: nat, blocked: set<nat>, there: set<nat>)
    requires 0 < k <= |nums|
    ensures FirstCanGo(nums, k, blocked, there) <==>
      CanGo(nums, 0, blocked, there) && FirstCanGo(nums[1..], k - 1, blocked, there - {nums[0]})
  {
    if CanGo(nums, 0, blocked, there) {
      forall j | 0 < j < k
        ensures CanGo(nums, j, blocked, there) <==> CanGo(nums[1..], j - 1, blocked, there - {nums[0]})
      {
        CanGoTail(nums, j, blocked, there);
      }
      if FirstCanGo(nums, k, blocked, there) {
        forall i | 0 <= i < k - 1 ensures CanGo(nums[1..], i, blocked, there - {nums[0]}) {
          assert CanGo(nums, i + 1, blocked, there);
        }
      }
    }
  }

  /** How many of the numbers are gone through. */
  function Reach(nums: seq<nat>, blocked: set<nat>, there: set<nat>): (k: nat)
    ensures k <= |nums|
  {
    if nums == [] || nums[0] in blocked || nums[0] == 0 || nums[0] !in there then 0
    else 1 + Reach(nums[1..], blocked, there - {nums[0]})
  }

  lemma {:induction false} ReachIs(nums: seq<nat>, blocked: set<nat>, there: set<nat>)
    ensures var k := Reach(nums, blocked, there);
      && FirstCanGo(nums, k, blocked, there) && (k < |nums| ==> !CanGo(nums, k, blocked, there))
      && Deletable(nums, blocked, there) == set j | 0 <= j < k :: nums[j]
  {
    if nums != [] && CanGo(nums, 0, blocked, there) {
      var rest, k := there - {nums[0]}, Reach(nums, blocked, there);
      ReachIs(nums[1..], blocked, rest);
      FirstCanGoTail(nums, k, blocked, there);
      if k < |nums| { CanGoTail(nums, k, blocked, there); }
      ReachedNumbers(nums, k);
    }
  }

  lemma ReachedNumbers(nums: seq<nat>, k: nat)
    requires 0 < k <= |nums|
    ensures (set j | 0 <= j < k :: nums[j]) == {nums[0]} + set j | 0 <= j < k - 1 :: nums[1..][j]
  {
    forall j | 0 <= j < k - 1 ensures nums[1..][j] == nums[j + 1] {}
    var all, rest := set j | 0 <= j < k :: nums[j], set j | 0 <= j < k - 1 :: nums[1..][j];
    forall n | n in all ensures n in {nums[0]} + rest {
      var j :| 0 <= j < k && nums[j] == n;
      if j > 0 { assert nums[1..][j - 1] == n; }
    }
  }

  /** One turn of the loop over the numbers. */
  lemma NextNumber(nums: seq<nat>, blocked: set<nat>, there: set<nat>)
    requires nums != []
    ensures var num := nums[0]; var rest := there - {num};
      if num in blocked || num == 0 || num !in there then
        && Deletable(nums, blocked, there) == {}
        && StopReply(nums, blocked, there) == if num in blocked then Failed else IllegalSnapshot
      else
        && there - Deletable(nums, blocked, there) == rest - Deletable(nums[1..], blocked, rest)
        && StopReply(nums, blocked, there) == StopReply(nums[1..], blocked, rest)
  {
  }

  /** The answer follows from the number at which it stops. */
  function StopReply(nums: seq<nat>, blocked: set<nat>, there: set<nat>): Reply {
    var k := Reach(nums, blocked, there);
    if k == |nums| then Okay else if nums[k] in blocked then Failed else IllegalSnapshot
  }

  lemma OneStop(nums: seq<nat>, k: nat, blocked: set<nat>, there: set<nat>)
    requires k <= |nums| && FirstCanGo(nums, k, blocked, there) && (k < |nums| ==> !CanGo(nums, k, blocked, there))
    ensures forall j :: 0 <= j <= |nums| ==> (FirstCanGo(nums, j, blocked, there) <==> j <= k)
    ensures forall j: nat :: StopsAt(nums, j, blocked, there) <==> j == k < |nums|
  {
    forall j: nat | j <= |nums| ensures FirstCanGo(nums, j, blocked, there) <==> j <= k {
      if j > k { assert !CanGo(nums, k, blocked, there); }
    }
  }

  lemma GoesIff(nums: seq<nat>, k: nat, blocked: set<nat>, there: set<nat>, n: nat)
    requires k <= |nums| && forall j :: 0 <= j <= |nums| ==> (FirstCanGo(nums, j, blocked, there) <==> j <= k)
    ensures Goes(nums, n, blocked, there) <==> n in set j | 0 <= j < k :: nums[j]
  {
    if n in set j | 0 <= j < k :: nums[j] {
      var j :| 0 <= j < k && nums[j] == n;
      assert FirstCanGo(nums, j + 1, blocked, there);
    }
  }

  lemma GoneIs(nums: seq<nat>, blocked: set<nat>, there: set<nat>)
    ensures NumbersGone(nums, blocked, there, there - Deletable(nums, blocked, there), StopReply(nums, blocked, there))
  {
    var k := Reach(nums, blocked, there);
    ReachIs(nums, blocked, there);
    OneStop(nums, k, blocked, there);
    forall n ensures Goes(nums, n, blocked, there) <==> n in Deletable(nums, blocked, there) {
      GoesIff(nums, k, blocked, there, n);
    }
    if k < |nums| { assert StopsAt(nums, k, blocked, there); }
  }

  function WithNumbers(s: State, c: string, nums: set<nat>): State {
    s.(snapshots := s.snapshots[c := nums])
  }

  lemma NumberDeleted(s: State, c: string, num: nat)
    requires Sound(s) && c in s.metas && c in s.snapshots && Uses(s, c) == 0 && num != 0
    ensures Sound(WithNumbers(s, c, s.snapshots[c] - {num})) && Uses(WithNumbers(s, c, s.snapshots[c] - {num}), c) == 0
  {
    assert Counted(s, c);
    if s.metas[c].snapper.Loaded? { assert Unoccupied(s, s.metas[c].snapper.address, c); }
    UnusedMayChange(s, WithNumbers(s, c, s.snapshots[c] - {num}), c);
  }

  /** The deleting loop has gone through all numbers but some. */
  ghost predicate Erasing(s: State, now: State, c: string, nums: seq<nat>, left: seq<nat>, blocked: set<nat>) {
    && Sound(now) && c in now.metas && c in now.snapshots && c in s.snapshots && Uses(now, c) == 0
    && now == WithNumbers(s, c, now.snapshots[c])
    && now.snapshots[c] - Deletable(left, blocked, now.snapshots[c])
       == s.snapshots[c] - Deletable(nums, blocked, s.snapshots[c])
    && StopReply(nums, blocked, s.snapshots[c]) == StopReply(left, blocked, now.snapshots[c])
  }

  lemma EraseOne(s: State, now: State, c: string, nums: seq<nat>, left: seq<nat>, blocked: set<nat>)
    requires Erasing(s, now, c, nums, left, blocked) && left != []
    ensures var num := left[0];
      if num in blocked || num == 0 || num !in now.snapshots[c] then
        && now == WithNumbers(s, c, s.snapshots[c] - Deletable(nums, blocked, s.snapshots[c]))
        && StopReply(nums, blocked, s.snapshots[c]) == if num in blocked then Failed else IllegalSnapshot
      else Erasing(s, WithNumbers(now, c, now.snapshots[c] - {num}), c, nums, left[1..], blocked)
  {
    var num := left[0];
    NextNumber(left, blocked, now.snapshots[c]);
    if num in blocked || num == 0 || num !in now.snapshots[c] {
      assert now.snapshots[c] - {} == now.snapshots[c];
    } else {
      NumberDeleted(now, c, num);
    }
  }

  lemma EraseEnds(s: State, now: State, c: string, nums: seq<nat>, blocked: set<nat>)
    requires Erasing(s, now, c, nums, [], blocked)
    ensures now == WithNumbers(s, c, s.snapshots[c] - Deletable(nums, blocked, s.snapshots[c]))
    ensures StopReply(nums, blocked, s.snapshots[c]) == Okay
  {
    assert now.snapshots[c] - {} == now.snapshots[c];
  }

  function Unloaded(s: State, c: string, expired: set<string>): State
    requires c in s.metas
  {
    if s.metas[c].snapper.Loaded? && s.metas[c].counter == 0 && c in expired
    then WithMeta(s, c, s.metas[c].(snapper := NotLoaded)) else s
  }

  /** The unloading loop has been through all configurations but some. */
  ghost predicate Unloading(s: State, s': State, expired: set<string>, left: set<string>) {
    && Sound(s') && s' == s.(metas := s'.metas) && s'.metas.Keys == s.metas.Keys
    && forall c :: c in s.metas ==> Expired(s, s', c, expired - left)
  }

  /** Only what is unused loses its Snapper. */
  ghost predicate Expired(s: State, s': State, c: string, done: set<string>)
    requires c in s.metas
  {
    c in s'.metas && s'.metas[c] ==
      if Uses(s, c) == 0 && c in done then s.metas[c].(snapper := NotLoaded) else s.metas[c]
  }

  lemma UnloadOne(s: State, s': State, expired: set<string>, left: set<string>, c: string)
    requires Unloading(s, s', expired, left) && c in left && c in s.metas
    ensures Unloading(s, Unloaded(s', c, expired), expired, left - {c})
  {
    var s2 := Unloaded(s', c, expired);
    assert Expired(s, s', c, expired - left);
    assert Counted(s', c);
    if s2 != s' { UnusedMayChange(s', s2, c); }
    forall d | d in s.metas ensures Expired(s, s2, d, expired - (left - {c})) {
      assert Expired(s, s', d, expired - left);
    }
  }

  /** At most clients and counters differ. */
  ghost predicate OnlyUses(s: State, s': State) {
    && s'.tasks == s.tasks && s'.snapshots == s.snapshots && s'.metas.Keys == s.metas.Keys
    && forall c :: c in s.metas ==> s'.metas[c].snapper == s.metas[c].snapper
  }

  /** The clients before i have been seen and stay; left are those still to be seen. */
  ghost predicate Sweeping(all: seq<Client>, finished: set<string>, clients: seq<Client>, i: nat, left: seq<Client>) {
    && i <= |clients| && clients[i..] == left && Staying(all, finished) == clients[..i] + Staying(left, finished)
    && forall cl :: cl in left && Gone(cl, finished) ==> cl.flight.Idle?
  }

  lemma SweepOne(all: seq<Client>, finished: set<string>, clients: seq<Client>, i: nat, left: seq<Client>)
    requires Sweeping(all, finished, clients, i, left) && i < |clients|
    ensures Gone(clients[i], finished) ==> clients[i].flight.Idle?
    ensures if Gone(clients[i], finished) then Sweeping(all, finished, Without(clients, i), i, left[1..])
            else Sweeping(all, finished, clients, i + 1, left[1..])
  {
  }

  lemma BumpBack(s: State, i: nat, held: Client, c: string)
    requires i < |s.clients| && c in s.metas
    ensures Bump(WithClient(Bump(WithClient(s, i, held), c, 1), i, held.(flight := Idle)), c, -1)
      == WithClient(s, i, held.(flight := Idle))
  {
  }

  lemma HasBegun(s: State, i: nat, c: string, address: nat, num1: nat, num2: nat)
    requires i < |s.clients| && c in s.metas && c in s.snapshots
    ensures var s1 := GetSnapper(s, c, address);
      var k := Comparison(c, s1.metas[c].snapper.address, num1, num2);
      var legal := num1 in s.snapshots[c] && num2 in s.snapshots[c] && num1 != num2;
      Begun(s, Bump(WithClient(s1, i, s.clients[i].(flight := Comparing(k, legal))), c, 1), i, c, address, num1, num2)
  {
    assert Obtained(s, GetSnapper(s, c, address), c, address);
  }

  lemma CanBegin(s: State, i: nat, c: string, address: nat, num1: nat, num2: nat)
    requires Sound(s) && i < |s.clients| && s.clients[i].flight.Idle? && FreshAddress(s, address) && c in s.metas
    ensures var s1 := GetSnapper(s, c, address);
      && s1.metas[c].snapper.Loaded? && c in s1.snapshots
      && var k := Comparison(c, s1.metas[c].snapper.address, num1, num2);
         var legal := num1 in s1.snapshots[c] && num2 in s1.snapshots[c] && num1 != num2;
         Sound(Bump(WithClient(s1, i, s1.clients[i].(flight := Comparing(k, legal))), c, 1))
  {
    LoadSound(s, c, address);
    var s1 := GetSnapper(s, c, address);
    var k := Comparison(c, s1.metas[c].snapper.address, num1, num2);
    var legal := num1 in s1.snapshots[c] && num2 in s1.snapshots[c] && num1 != num2;
    assert s1.clients[i] in s1.clients && ClientIntact(s1, s1.clients[i]);
    ClientStep(s1, i, s1.clients[i].(flight := Comparing(k, legal)), c, 1);
  }

  lemma HasDropped(s: State, i: nat, c: string, address: nat, num1: nat, num2: nat)
    requires i < |s.clients| && c in s.metas
    ensures var s1 := GetSnapper(s, c, address);
      var ks := s.clients[i].comparisons;
      var j := IndexOf(ks, s1.metas[c].snapper.address, num1, num2);
      if j == |ks| then Dropped(s, s1, i, c, address, num1, num2, NoComparison)
      else Dropped(s, Bump(WithClient(s1, i, s.clients[i].(comparisons := Without(ks, j))), c, -1), i, c, address,
                   num1, num2, Okay)
  {
    var s1 := GetSnapper(s, c, address);
    assert Obtained(s, s1, c, address);
    var ks, a := s.clients[i].comparisons, s1.metas[c].snapper.address;
    var j := IndexOf(ks, a, num1, num2);
    if j < |ks| { assert FirstSuch(ks, j, a, num1, num2); }
  }

  lemma HasQueued(s: State, c: string, address: nat, preNum: nat, num: nat)
    requires c in s.metas && c in s.snapshots
    ensures var s1 := GetSnapper(s, c, address);
      var s2 := s1.(snapshots := s1.snapshots[c := s1.snapshots[c] + {num}]);
      var t := Task(c, s1.metas[c].snapper.address, preNum, num, false);
      Queued(s, Bump(s2.(tasks := s2.tasks + [t]), c, 1), c, address, preNum, num)
    ensures var s1 := GetSnapper(s, c, address);
      NewNumber(s, s1.(snapshots := s1.snapshots[c := s1.snapshots[c] + {num}]), c, address, num, true, Okay)
      && NewNumber(s, s1, c, address, num, false, Failed)
  {
    assert Obtained(s, GetSnapper(s, c, address), c, address);
  }

  /** A comparison made with the loaded Snapper of a configuration is one of that configuration. */
  lemma SameAddress(s: State, i: nat, j: nat, c: string)
    requires Sound(s) && i < |s.clients| && j < |s.clients[i].comparisons| && c in s.metas
    requires s.metas[c].snapper == Loaded(s.clients[i].comparisons[j].address)
    ensures s.clients[i].comparisons[j].config == c
  {
    var k := s.clients[i].comparisons[j];
    assert s.clients[i] in s.clients && ClientIntact(s, s.clients[i]) && k in s.clients[i].comparisons;
    assert Intact(s, k);
  }

  class SnapperDaemon {
    var state: State

    ghost predicate Valid()
      reads this
    {
      Sound(state)
    }

    constructor ()
      ensures Valid() && state == State(map[], [], [], map[])
    {
      state := State(map[], [], [], map[]);
    }

    /** MyMainLoop::method_call: the first message of a client. */
    method ConnectClient(name: string)
      requires Valid()
      modifies this
      ensures Valid() && state == old(state).(clients := old(state).clients + [Client(name, [], {}, Idle, false)])
    {
      ClientAdded(state, name);
      state := state.(clients := state.clients + [Client(name, [], {}, Idle, false)]);
    }

    /** Afterwards the client may still be served, but its locks no longer count. */
    method ClientDisconnected(i: nat)
      requires Valid() && i < |state.clients|
      modifies this
      ensures Valid() && state == WithClient(old(state), i, old(state).clients[i].(zombie := true))
    {
      ClientKept(state, i, state.clients[i].(zombie := true));
      state := WithClient(state, i, state.clients[i].(zombie := true));
    }

    method CreateConfig(c: string, onDisk: set<nat>) returns (r: Reply)
      requires Valid()
      modifies this
      ensures Valid()
      ensures r == if c in old(state).metas then Failed else Okay
      ensures r == Failed ==> state == old(state)
      ensures r == Okay ==> state == old(state).(metas := old(state).metas[c := MetaSnapper(0, NotLoaded)],
                                                 snapshots := old(state).snapshots[c := onDisk + {0}])
    {
      if c in state.metas { return Failed; }
      assert Counted(state, c);
      var next := state.(metas := state.metas[c := MetaSnapper(0, NotLoaded)],
                         snapshots := state.snapshots[c := onDisk + {0}]);
      UnusedMayChange(state, next, c);
      state := next;
      return Okay;
    }

    method CheckLock(i: nat, c: string) returns (locked: bool)
      ensures locked <==> LockedByOther(state, i, c)
    {
      for j := 0 to |state.clients|
        invariant forall m :: 0 <= m < j && m != i && !state.clients[m].zombie ==> c !in state.clients[m].locks
      {
        if j != i && !state.clients[j].zombie && c in state.clients[j].locks { return true; }
      }
      return false;
    }

    /** A configuration goes only when nobody uses it and nobody else has locked it. */
    method DeleteConfig(i: nat, c: string, works: bool) returns (r: Reply)
      requires Valid() && i < |state.clients|
      modifies this
      ensures Valid()
      ensures r == Okay ==>
        state == old(state).(metas := old(state).metas - {c}, snapshots := old(state).snapshots - {c})
      ensures r == Okay ==> c in old(state).metas && Unreferenced(old(state), c) && !LockedByOther(old(state), i, c)
      ensures r != Okay ==> state == old(state)
      ensures r == UnknownConfig <==> c !in old(state).metas
      ensures r == ConfigLocked <==> c in old(state).metas && LockedByOther(old(state), i, c)
      ensures r == ConfigInUse <==> c in old(state).metas && !LockedByOther(old(state), i, c) && Uses(old(state), c) > 0
      ensures Refused(old(state), i, c, r) && r in {UnknownConfig, ConfigLocked, ConfigInUse, Okay, Failed}
      ensures (r == Okay ==> works) && (r == Failed ==> !works)
    {
      UnusedIff(state, c);
      if c !in state.metas { return UnknownConfig; }
      var locked := CheckLock(i, c);
      if locked { return ConfigLocked; }
      assert Counted(state, c);
      if state.metas[c].counter != 0 { return ConfigInUse; }
      if !works { return Failed; }
      var next := state.(metas := state.metas - {c}, snapshots := state.snapshots - {c});
      UnusedMayChange(state, next, c);
      state := next;
      return Okay;
    }

    method LockConfig(i: nat, c: string) returns (r: Reply)
      requires Valid() && i < |state.clients|
      modifies this
      ensures Valid()
      ensures r == if c in old(state).metas then Okay else UnknownConfig
      ensures var cl := old(state).clients[i];
        state == if r == Okay then WithClient(old(state), i, cl.(locks := cl.locks + {c})) else old(state)
    {
      if c !in state.metas { return UnknownConfig; }
      var cl := state.clients[i];
      ClientKept(state, i, cl.(locks := cl.locks + {c}));
      state := WithClient(state, i, cl.(locks := cl.locks + {c}));
      return Okay;
    }

    method UnlockConfig(i: nat, c: string) returns (r: Reply)
      requires Valid() && i < |state.clients|
      modifies this
      ensures Valid()
      ensures r == if c in old(state).metas then Okay else UnknownConfig
      ensures var cl := old(state).clients[i];
        state == if r == Okay then WithClient(old(state), i, cl.(locks := cl.locks - {c})) else old(state)
    {
      if c !in state.metas { return UnknownConfig; }
      var cl := state.clients[i];
      ClientKept(state, i, cl.(locks := cl.locks - {c}));
      state := WithClient(state, i, cl.(locks := cl.locks - {c}));
      return Okay;
    }

    /** The first critical section of create_comparison, up to the unlock. */
    method BeginComparison(i: nat, c: string, num1: nat, num2: nat, address: nat) returns (r: Reply)
      requires Valid() && i < |state.clients| && state.clients[i].flight.Idle? && FreshAddress(state, address)
      modifies this
      ensures Valid()
      ensures r == if c in old(state).metas then Okay else UnknownConfig
      ensures r != Okay ==> state == old(state)
      ensures r == Okay ==> Begun(old(state), state, i, c, address, num1, num2)
      ensures r == Okay ==>
        state == (var s := GetSnapper(old(state), c, address);
                  var k := Comparison(c, s.metas[c].snapper.address, num1, num2);
                  var legal := num1 in s.snapshots[c] && num2 in s.snapshots[c] && num1 != num2;
                  Bump(WithClient(s, i, s.clients[i].(flight := Comparing(k, legal))), c, 1))
    {
      if c !in state.metas { return UnknownConfig; }
      CanBegin(state, i, c, address, num1, num2);
      HasBegun(state, i, c, address, num1, num2);
      state := GetSnapper(state, c, address);
      var k := Comparison(c, state.metas[c].snapper.address, num1, num2);
      var legal := num1 in state.snapshots[c] && num2 in state.snapshots[c] && num1 != num2;
      state := Bump(WithClient(state, i, state.clients[i].(flight := Comparing(k, legal))), c, 1);
      return Okay;
    }

    /** The second critical section, after the comparison has been made: the client's own use, then the holder's is
        given back. */
    method FinishComparison(i: nat)
      requires Valid() && i < |state.clients| && state.clients[i].flight.Comparing? && state.clients[i].flight.legal
      modifies this
      ensures Valid()
      ensures var cl := old(state).clients[i]; var k := cl.flight.comparison;
        && Intact(old(state), k)
        && state == WithClient(old(state), i, cl.(comparisons := cl.comparisons + [k], flight := Idle))
    {
      var cl := state.clients[i];
      var k := cl.flight.comparison;
      assert cl in state.clients && ClientIntact(state, cl);
      var held := cl.(comparisons := cl.comparisons + [k]);
      forall d: string ensures ClientUse(d)(held) == ClientUse(d)(cl) + (if d == k.config then 1 else 0) {
        HeldAppend(cl, k, d);
      }
      ClientStep(state, i, held, k.config, 1);
      state := Bump(WithClient(state, i, held), k.config, 1);
      FlightCounts(state, i);
      assert Counted(state, k.config);
      assert state.metas[k.config].counter > 0;
      ClientStep(state, i, held.(flight := Idle), k.config, -1);
      state := Bump(WithClient(state, i, held.(flight := Idle)), k.config, -1);
      BumpBack(old(state), i, held, k.config);
    }

    /** An exception or an interruption while comparing: only the holder's use is given back. */
    method AbortComparison(i: nat)
      requires Valid() && i < |state.clients| && state.clients[i].flight.Comparing?
      modifies this
      ensures Valid()
      ensures var cl := old(state).clients[i]; var c := cl.flight.comparison.config;
        c in old(state).metas && state == Bump(WithClient(old(state), i, cl.(flight := Idle)), c, -1)
    {
      var cl := state.clients[i];
      var c := cl.flight.comparison.config;
      assert cl in state.clients && ClientIntact(state, cl);
      FlightCounts(state, i);
      assert Counted(state, c);
      assert state.metas[c].counter > 0;
      ClientStep(state, i, cl.(flight := Idle), c, -1);
      state := Bump(WithClient(state, i, cl.(flight := Idle)), c, -1);
    }

    method DeleteComparison(i: nat, c: string, num1: nat, num2: nat, address: nat) returns (r: Reply)
      requires Valid() && i < |state.clients| && FreshAddress(state, address)
      modifies this
      ensures Valid()
      ensures r == UnknownConfig <==> c !in old(state).metas
      ensures r == UnknownConfig ==> state == old(state)
      ensures c in old(state).metas ==> Dropped(old(state), state, i, c, address, num1, num2, r)
      ensures r == NoComparison ==> state == GetSnapper(old(state), c, address)
      ensures c in old(state).metas ==>
        var s := GetSnapper(old(state), c, address); var cl := s.clients[i];
        var j := IndexOf(cl.comparisons, s.metas[c].snapper.address, num1, num2);
        && r == (if j < |cl.comparisons| then Okay else NoComparison)
        && (r == Okay ==> state == Bump(WithClient(s, i, cl.(comparisons := Without(cl.comparisons, j))), c, -1))
    {
      if c !in state.metas { return UnknownConfig; }
      HasDropped(state, i, c, address, num1, num2);
      LoadSound(state, c, address);
      state := GetSnapper(state, c, address);
      var cl := state.clients[i];
      var j := IndexOf(cl.comparisons, state.metas[c].snapper.address, num1, num2);
      if j == |cl.comparisons| { return NoComparison; }
      SameAddress(state, i, j, c);
      ComparisonDeleted(state, i, j);
      state := Released(state, i, j);
      return Okay;
    }

    /** Single and pre snapshots; works tells whether the snapshot could be made. */
    method CreateSnapshot(c: string, num: nat, address: nat, works: bool) returns (r: Reply)
      requires Valid() && FreshAddress(state, address)
      modifies this
      ensures Valid()
      ensures r == if c !in old(state).metas then UnknownConfig else if works then Okay else Failed
      ensures r == UnknownConfig ==> state == old(state)
      ensures c in old(state).metas ==>
        var s := GetSnapper(old(state), c, address);
        state == if works then s.(snapshots := s.snapshots[c := s.snapshots[c] + {num}]) else s
      ensures c in old(state).metas ==> NewNumber(old(state), state, c, address, num, works, r)
    {
      if c !in state.metas { return UnknownConfig; }
      LoadSound(state, c, address);
      state := GetSnapper(state, c, address);
      if !works { return Failed; }
      SnapshotAdded(state, c, num);
      state := state.(snapshots := state.snapshots[c := state.snapshots[c] + {num}]);
      return Okay;
    }

    /** A post snapshot may queue a background comparison, which counts as one use. */
    method CreatePostSnapshot(c: string, preNum: nat, num: nat, address: nat, works: bool, background: bool)
      returns (r: Reply)
      requires Valid() && FreshAddress(state, address)
      modifies this
      ensures Valid()
      ensures r == if c !in old(state).metas then UnknownConfig
                   else if preNum == 0 || preNum !in old(state).snapshots[c] then IllegalSnapshot
                   else if works then Okay else Failed
      ensures r == UnknownConfig ==> state == old(state)
      ensures r == IllegalSnapshot || r == Failed ==> state == GetSnapper(old(state), c, address)
      ensures r == Okay ==>
        var s := GetSnapper(old(state), c, address);
        var s' := s.(snapshots := s.snapshots[c := s.snapshots[c] + {num}]);
        var t := Task(c, s.metas[c].snapper.address, preNum, num, false);
        state == if background then Bump(s'.(tasks := s'.tasks + [t]), c, 1) else s'
      ensures r == IllegalSnapshot ==> Obtained(old(state), state, c, address)
      ensures r == Failed || (r == Okay && !background) ==> NewNumber(old(state), state, c, address, num, works, r)
      ensures r == Okay && background ==> Queued(old(state), state, c, address, preNum, num)
    {
      if c !in state.metas { return UnknownConfig; }
      HasQueued(state, c, address, preNum, num);
      LoadSound(state, c, address);
      state := GetSnapper(state, c, address);
      if preNum == 0 || preNum !in state.snapshots[c] { return IllegalSnapshot; }
      if !works { return Failed; }
      SnapshotAdded(state, c, num);
      state := state.(snapshots := state.snapshots[c := state.snapshots[c] + {num}]);
      if background {
        var t := Task(c, state.metas[c].snapper.address, preNum, num, false);
        TaskAdded(state, t);
        state := Bump(state.(tasks := state.tasks + [t]), c, 1);
      }
      return Okay;
    }

    /** Snapshots go only when nobody uses their configuration and nobody else has locked it; the first number that
        is mounted by a client, unknown, or the live system ends it. */
    method DeleteSnapshots(i: nat, c: string, nums: seq<nat>, blocked: set<nat>, address: nat) returns (r: Reply)
      requires Valid() && i < |state.clients| && FreshAddress(state, address)
      modifies this
      ensures Valid()
      ensures r == UnknownConfig <==> c !in old(state).metas
      ensures r == ConfigLocked <==> c in old(state).metas && LockedByOther(old(state), i, c)
      ensures r == ConfigInUse <==> c in old(state).metas && !LockedByOther(old(state), i, c) && Uses(old(state), c) > 0
      ensures r in {UnknownConfig, ConfigLocked, ConfigInUse} ==> state == old(state)
      ensures r !in {UnknownConfig, ConfigLocked, ConfigInUse} ==>
        && Unreferenced(old(state), c) && c in old(state).snapshots
        && state == WithNumbers(GetSnapper(old(state), c, address), c,
                                old(state).snapshots[c] - Deletable(nums, blocked, old(state).snapshots[c]))
        && LessNumbers(old(state), state, c, address, nums, blocked, r)
      ensures Refused(old(state), i, c, r)
    {
      UnusedIff(state, c);
      if c !in state.metas { return UnknownConfig; }
      var locked := CheckLock(i, c);
      if locked { return ConfigLocked; }
      assert Counted(state, c);
      if state.metas[c].counter != 0 { return ConfigInUse; }
      LoadSound(state, c, address);
      state := GetSnapper(state, c, address);
      r := DeleteNumbers(c, nums, blocked);
    }

    method DeleteNumbers(c: string, nums: seq<nat>, blocked: set<nat>) returns (r: Reply)
      requires Valid() && c in state.metas && c in state.snapshots && Uses(state, c) == 0
      modifies this
      ensures Valid() && r in {Okay, Failed, IllegalSnapshot}
      ensures state
        == WithNumbers(old(state), c, old(state).snapshots[c] - Deletable(nums, blocked, old(state).snapshots[c]))
      ensures NumbersGone(nums, blocked, old(state).snapshots[c], state.snapshots[c], r)
    {
      GoneIs(nums, blocked, state.snapshots[c]);
      ghost var s, left := state, nums;
      assert WithNumbers(s, c, s.snapshots[c]) == s;
      var m := 0;
      while m < |nums|
        invariant m <= |nums| && left == nums[m..]
        invariant Erasing(s, state, c, nums, left, blocked)
      {
        var num := nums[m];
        assert left[0] == num && left[1..] == nums[m + 1..];
        EraseOne(s, state, c, nums, left, blocked);
        if num in blocked { return Failed; }
        if num == 0 || num !in state.snapshots[c] { return IllegalSnapshot; }
        state := WithNumbers(state, c, state.snapshots[c] - {num});
        left := left[1..];
        m := m + 1;
      }
      EraseEnds(s, state, c, nums, blocked);
      return Okay;
    }

    /** The background worker has compared the pair of the first task and gives its use back. It runs without the lock,
        so it must find the very Snapper loaded that the task was queued with: it could not load one safely, and the
        task's places in the list of snapshots belong to that one. */
    method BackgroundRelease()
      requires Valid() && state.tasks != [] && !state.tasks[0].released
      modifies this
      ensures Valid()
      ensures var t := old(state).tasks[0];
        && TaskIntact(old(state), t) && t.config in old(state).metas
        && state == Bump(old(state).(tasks := old(state).tasks[0 := t.(released := true)]), t.config, -1)
    {
      TaskReleased(state);
      var t := state.tasks[0];
      state := Bump(state.(tasks := state.tasks[0 := t.(released := true)]), t.config, -1);
    }

    method BackgroundPop()
      requires Valid() && state.tasks != [] && state.tasks[0].released
      modifies this
      ensures Valid() && state == old(state).(tasks := old(state).tasks[1..])
    {
      TaskPopped(state);
      state := state.(tasks := state.tasks[1..]);
    }

    /** Client::~Client for a client whose thread has ended. */
    method DestroyClient(i: nat)
      requires Valid() && i < |state.clients| && state.clients[i].flight.Idle?
      modifies this
      ensures Valid()
      ensures state.clients == Without(old(state).clients, i)
      ensures OnlyUses(old(state), state)
    {
      while state.clients[i].comparisons != []
        invariant Valid() && |state.clients| == |old(state).clients| && i < |state.clients|
        invariant state.clients[i].flight.Idle?
        invariant Without(state.clients, i) == Without(old(state).clients, i)
        invariant OnlyUses(old(state), state)
        decreases |state.clients[i].comparisons|
      {
        var cl := state.clients[i];
        var k := cl.comparisons[0];
        ComparisonDeleted(state, i, 0);
        assert state.metas[k.config].counter > 0;
        state := Released(state, i, 0);
      }
      ClientRemoved(state, i);
      state := state.(clients := Without(state.clients, i));
    }

    /** Clients::remove_zombies; finished names the clients whose threads have ended. */
    method RemoveZombies(finished: set<string>)
      requires Valid() && forall cl :: cl in state.clients && Gone(cl, finished) ==> cl.flight.Idle?
      modifies this
      ensures Valid() && state.clients == Staying(old(state).clients, finished)
      ensures OnlyUses(old(state), state)
    {
      var i := 0;
      ghost var left := state.clients;
      ghost var all := state.clients;
      while i < |state.clients|
        invariant Valid() && OnlyUses(old(state), state)
        invariant Sweeping(all, finished, state.clients, i, left)
        decreases |left|
      {
        SweepOne(all, finished, state.clients, i, left);
        if Gone(state.clients[i], finished) {
          DestroyClient(i);
        } else {
          i := i + 1;
        }
        left := left[1..];
      }
    }

    /** The unloading loop of MyMainLoop::periodic; expired names the configurations unused for long enough. */
    method UnloadUnused(expired: set<string>)
      requires Valid()
      modifies this
      ensures Valid()
      ensures state.metas.Keys == old(state).metas.Keys && state == old(state).(metas := state.metas)
      ensures forall c :: c in old(state).metas ==> Expired(old(state), state, c, expired)
    {
      var left := state.metas.Keys;
      while left != {}
        invariant left <= state.metas.Keys && Unloading(old(state), state, expired, left)
        decreases |left|
      {
        var c :| c in left;
        UnloadOne(old(state), state, expired, left, c);
        state := Unloaded(state, c, expired);
        left := left - {c};
      }
      assert expired - left == expired;
    }

    /** One critical section of some thread, where it can take place. */
    method Step(a: Action) returns (r: Reply)
      requires Valid()
      modifies this
      ensures Valid() && Happens(a, r, old(state), state)
    {
      r := Okay;
      match a
      case Connect(name) =>
        ConnectClient(name);
      case Disconnect(i) =>
        if i < |state.clients| { ClientDisconnected(i); }
      case Request(i, request, address) =>
        if i < |state.clients| && state.clients[i].flight.Idle? && FreshAddress(state, address) {
          r := Serve(i, request, address);
        }
      case Finish(i) =>
        if i < |state.clients| && state.clients[i].flight.Comparing? && state.clients[i].flight.legal {
          FinishComparison(i);
        }
      case Abort(i) =>
        if i < |state.clients| && state.clients[i].flight.Comparing? { AbortComparison(i); }
      case Release =>
        if state.tasks != [] && !state.tasks[0].released { BackgroundRelease(); }
      case Pop =>
        if state.tasks != [] && state.tasks[0].released { BackgroundPop(); }
      case Periodic(finished, expired) =>
        if forall cl :: cl in state.clients && Gone(cl, finished) ==> cl.flight.Idle? {
          Sweep(finished, expired);
        }
    }

    /** The main loop wakes up. */
    method Sweep(finished: set<string>, expired: set<string>)
      requires Valid() && forall cl :: cl in state.clients && Gone(cl, finished) ==> cl.flight.Idle?
      modifies this
      ensures Valid() && Swept(old(state), state, finished, expired)
    {
      RemoveZombies(finished);
      ghost var s := state;
      UnloadUnused(expired);
      forall c | c in s.metas ensures Expired(s, state, c, expired) && (Uses(s, c) == 0 <==> Unreferenced(state, c)) {
        UnusedIff(s, c);
      }
    }

    method Serve(i: nat, request: Request, address: nat) returns (r: Reply)
      requires Valid() && i < |state.clients| && state.clients[i].flight.Idle? && FreshAddress(state, address)
      modifies this
      ensures Valid() && Answered(request, i, address, r, old(state), state)
    {
      match request
      case NewConfig(c, onDisk) => r := CreateConfig(c, onDisk);
      case DropConfig(c, works) => r := DeleteConfig(i, c, works);
      case Lock(c) => r := LockConfig(i, c);
      case Unlock(c) => r := UnlockConfig(i, c);
      case NewSnapshot(c, num, works) => r := CreateSnapshot(c, num, address, works);
      case NewPost(c, preNum, num, works, background) =>
        r := CreatePostSnapshot(c, preNum, num, address, works, background);
      case DropSnapshots(c, nums, blocked) => r := DeleteSnapshots(i, c, nums, blocked, address);
      case NewComparison(c, num1, num2) => r := BeginComparison(i, c, num1, num2, address);
      case DropComparison(c, num1, num2) => r := DeleteComparison(i, c, num1, num2, address);
    }

    /** Any interleaving of all threads, from the start of the daemon: each state follows from the one before by the
        action of its turn, and in all of them the counts are right and nothing dangles. */
    static method Run(actions: seq<Action>)
      returns (daemon: SnapperDaemon, ghost states: seq<State>, ghost replies: seq<Reply>)
      ensures fresh(daemon) && |states| == |actions| + 1 && |replies| == |actions|
      ensures states[0] == State(map[], [], [], map[]) && states[|actions|] == daemon.state
      ensures forall n :: 0 <= n < |actions| ==> Happens(actions[n], replies[n], states[n], states[n + 1])
      ensures forall s :: s in states ==> Sound(s)
    {
      daemon := new SnapperDaemon();
      states, replies := [daemon.state], [];
      for n := 0 to |actions|
        invariant fresh(daemon) && daemon.Valid()
        invariant |states| == n + 1 && |replies| == n && states[0] == State(map[], [], [], map[])
        invariant states[n] == daemon.state
        invariant forall k :: 0 <= k < n ==> Happens(actions[k], replies[k], states[k], states[k + 1])
        invariant forall s :: s in states ==> Sound(s)
      {
        var r := daemon.Step(actions[n]);
        states, replies := states + [daemon.state], replies + [r];
      }
    }
  }
}
