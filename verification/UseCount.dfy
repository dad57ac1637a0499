/** The state of the daemon, and who uses a configuration (server/MetaSnapper.h, server/Client.h,
    server/Background.h). */
module UseCount {

  /** A Snapper object is known by its address; an address may be used again once its object is gone. */
  datatype Snapper = NotLoaded | Loaded(address: nat)

  datatype MetaSnapper = MetaSnapper(counter: int, snapper: Snapper)

  /** A comparison keeps the address of its Snapper, and places in that Snapper's list of snapshots. */
  datatype Comparison = Comparison(config: string, address: nat, num1: nat, num2: nat)

  /** What the worker thread of a client is computing without holding the lock; its RefHolder counts as one use.
      It is legal if both snapshots were found and differ. */
  datatype Flight = Idle | Comparing(comparison: Comparison, legal: bool)

  datatype Client = Client(name: string, comparisons: seq<Comparison>, locks: set<string>, flight: Flight, zombie: bool)

  /** A background comparison holds places in the list of the Snapper it was queued with; released says that its use
      has been given back. */
  datatype Task = Task(config: string, address: nat, num1: nat, num2: nat, released: bool)

  /** snapshots holds the numbers of each configuration; 0 is the live system. */
  datatype State = State(metas: map<string, MetaSnapper>, clients: seq<Client>, tasks: seq<Task>,
                         snapshots: map<string, set<nat>>)

  function Total<T>(xs: seq<T>, weight: T -> nat): nat {
    if xs == [] then 0 else Total(xs[..|xs| - 1], weight) + weight(xs[|xs| - 1])
  }

  lemma TotalAppend<T>(xs: seq<T>, x: T, weight: T -> nat)
    ensures Total(xs + [x], weight) == Total(xs, weight) + weight(x)
  {
  }

  lemma {:induction false} TotalUpdate<T>(xs: seq<T>, i: nat, x: T, weight: T -> nat)
    requires i < |xs|
    ensures Total(xs[i := x], weight) == Total(xs, weight) - weight(xs[i]) + weight(x)
  {
    var n := |xs| - 1;
    if i == n {
      assert xs[i := x][..n] == xs[..n];
    } else {
      assert xs[i := x][..n] == xs[..n][i := x];
      TotalUpdate(xs[..n], i, x, weight);
    }
  }

  lemma {:induction false} TotalRemove<T>(xs: seq<T>, i: nat, weight: T -> nat)
    requires i < |xs|
    ensures Total(xs[..i] + xs[i + 1..], weight) == Total(xs, weight) - weight(xs[i])
  {
    var n := |xs| - 1;
    if i == n {
      assert xs[..i] + xs[i + 1..] == xs[..n];
    } else {
      assert (xs[..i] + xs[i + 1..])[..n - 1] == xs[..n][..i] + xs[..n][i + 1..];
      TotalRemove(xs[..n], i, weight);
    }
  }

  lemma {:induction false} TotalAtLeast<T>(xs: seq<T>, i: nat, weight: T -> nat)
    requires i < |xs|
    ensures Total(xs, weight) >= weight(xs[i])
  {
    if i < |xs| - 1 {
      TotalAtLeast(xs[..|xs| - 1], i, weight);
    }
  }

  function HeldFor(c: string): Comparison -> nat {
    (k: Comparison) => if k.config == c then 1 else 0
  }

  function FlightUse(f: Flight, c: string): nat {
    if f.Comparing? && f.comparison.config == c then 1 else 0
  }

  /** The uses of a configuration by a client: its comparisons and the one it is computing. */
  function ClientUse(c: string): Client -> nat {
    (cl: Client) => Total(cl.comparisons, HeldFor(c)) + FlightUse(cl.flight, c)
  }

  function TaskUse(c: string): Task -> nat {
    (t: Task) => if t.config == c && !t.released then 1 else 0
  }

  function Uses(s: State, c: string): nat {
    Total(s.clients, ClientUse(c)) + Total(s.tasks, TaskUse(c))
  }

  /** The Snapper of a reference is the loaded one, and its snapshots exist. */
  ghost predicate Intact(s: State, k: Comparison) {
    && k.config in s.metas && s.metas[k.config].snapper == Loaded(k.address)
    && k.config in s.snapshots && k.num1 in s.snapshots[k.config] && k.num2 in s.snapshots[k.config] && k.num1 != k.num2
  }

  ghost predicate ClientIntact(s: State, cl: Client) {
    && (forall k :: k in cl.comparisons ==> Intact(s, k))
    && (cl.flight.Comparing? ==>
      && cl.flight.comparison.config in s.metas
      && s.metas[cl.flight.comparison.config].snapper == Loaded(cl.flight.comparison.address)
      && (cl.flight.legal ==> Intact(s, cl.flight.comparison)))
  }

  ghost predicate TaskIntact(s: State, t: Task) {
    !t.released ==>
      && t.config in s.metas && s.metas[t.config].snapper == Loaded(t.address)
      && t.config in s.snapshots && t.num1 in s.snapshots[t.config] && t.num2 in s.snapshots[t.config]
  }

  ghost predicate Counted(s: State, c: string) {
    if c in s.metas then s.metas[c].counter == Uses(s, c) else Uses(s, c) == 0
  }

  ghost predicate DistinctAddresses(s: State) {
    forall c, d ::
      c in s.metas && d in s.metas && s.metas[c].snapper.Loaded? && s.metas[c].snapper == s.metas[d].snapper ==> c == d
  }

  /** What every step of every thread keeps. */
  ghost predicate Sound(s: State) {
    && (forall c: string :: Counted(s, c))
    && (forall cl :: cl in s.clients ==> ClientIntact(s, cl))
    && (forall t :: t in s.tasks ==> TaskIntact(s, t))
    && (forall i :: 0 < i < |s.tasks| ==> !s.tasks[i].released)
    && DistinctAddresses(s)
    && s.snapshots.Keys == s.metas.Keys
    && (forall c :: c in s.snapshots ==> 0 in s.snapshots[c])
  }

  /** A configuration that anyone uses has a positive counter. */
  lemma HolderCounts(s: State, i: nat, j: nat)
    requires i < |s.clients| && j < |s.clients[i].comparisons|
    ensures Uses(s, s.clients[i].comparisons[j].config) >= 1
  {
    var c := s.clients[i].comparisons[j].config;
    TotalAtLeast(s.clients, i, ClientUse(c));
    TotalAtLeast(s.clients[i].comparisons, j, HeldFor(c));
  }

  lemma FlightCounts(s: State, i: nat)
    requires i < |s.clients| && s.clients[i].flight.Comparing?
    ensures Uses(s, s.clients[i].flight.comparison.config) >= 1
  {
    TotalAtLeast(s.clients, i, ClientUse(s.clients[i].flight.comparison.config));
  }

  lemma TaskCounts(s: State, i: nat)
    requires i < |s.tasks| && !s.tasks[i].released
    ensures Uses(s, s.tasks[i].config) >= 1
  {
    TotalAtLeast(s.tasks, i, TaskUse(s.tasks[i].config));
  }

  /** Whoever refers to a configuration finds it counted, its Snapper loaded, and its snapshots there. */
  lemma NothingDangles(s: State)
    requires Sound(s)
    ensures forall cl, k :: cl in s.clients && k in cl.comparisons ==> Intact(s, k) && s.metas[k.config].counter >= 1
    ensures forall cl :: cl in s.clients && cl.flight.Comparing? && cl.flight.legal ==>
      Intact(s, cl.flight.comparison) && s.metas[cl.flight.comparison.config].counter >= 1
    ensures forall t :: t in s.tasks && !t.released ==>
      TaskIntact(s, t) && s.metas[t.config].counter >= 1
  {
    forall cl, k | cl in s.clients && k in cl.comparisons ensures Intact(s, k) && s.metas[k.config].counter >= 1 {
      assert ClientIntact(s, cl) && Counted(s, k.config);
      var i :| 0 <= i < |s.clients| && s.clients[i] == cl;
      var j :| 0 <= j < |cl.comparisons| && cl.comparisons[j] == k;
      HolderCounts(s, i, j);
    }
    forall cl | cl in s.clients && cl.flight.Comparing? && cl.flight.legal
      ensures Intact(s, cl.flight.comparison) && s.metas[cl.flight.comparison.config].counter >= 1
    {
      assert ClientIntact(s, cl) && Counted(s, cl.flight.comparison.config);
      var i :| 0 <= i < |s.clients| && s.clients[i] == cl;
      FlightCounts(s, i);
    }
    forall t | t in s.tasks && !t.released
      ensures TaskIntact(s, t) && s.metas[t.config].counter >= 1
    {
      assert TaskIntact(s, t) && Counted(s, t.config);
      var i :| 0 <= i < |s.tasks| && s.tasks[i] == t;
      TaskCounts(s, i);
    }
  }

  /** Nobody refers to a configuration whose use is zero. */
  ghost predicate Unreferenced(s: State, c: string) {
    && (forall cl, k :: cl in s.clients && k in cl.comparisons ==> k.config != c)
    && (forall cl :: cl in s.clients && cl.flight.Comparing? ==> cl.flight.comparison.config != c)
    && (forall t :: t in s.tasks && !t.released ==> t.config != c)
  }

  lemma {:induction false} NoWeight<T>(xs: seq<T>, weight: T -> nat)
    requires forall x :: x in xs ==> weight(x) == 0
    ensures Total(xs, weight) == 0
  {
    if xs != [] { NoWeight(xs[..|xs| - 1], weight); }
  }

  /** Uses count references, so there is no use exactly where there is no reference. */
  lemma UnusedIff(s: State, c: string)
    ensures Uses(s, c) == 0 <==> Unreferenced(s, c)
  {
    if Uses(s, c) == 0 { UnusedIsUnreferenced(s, c); }
    if Unreferenced(s, c) {
      forall cl | cl in s.clients ensures ClientUse(c)(cl) == 0 {
        NoWeight(cl.comparisons, HeldFor(c));
      }
      NoWeight(s.clients, ClientUse(c));
      NoWeight(s.tasks, TaskUse(c));
    }
  }

  lemma UnusedIsUnreferenced(s: State, c: string)
    requires Uses(s, c) == 0
    ensures Unreferenced(s, c)
  {
    forall cl, k | cl in s.clients && k in cl.comparisons ensures k.config != c {
      var i :| 0 <= i < |s.clients| && s.clients[i] == cl;
      var j :| 0 <= j < |cl.comparisons| && cl.comparisons[j] == k;
      HolderCounts(s, i, j);
    }
    forall cl | cl in s.clients && cl.flight.Comparing? ensures cl.flight.comparison.config != c {
      var i :| 0 <= i < |s.clients| && s.clients[i] == cl;
      FlightCounts(s, i);
    }
    forall t | t in s.tasks && !t.released ensures t.config != c {
      var i :| 0 <= i < |s.tasks| && s.tasks[i] == t;
      TaskCounts(s, i);
    }
  }

  /** Nothing but one configuration differs. */
  ghost predicate OnlyConfig(s: State, s': State, c: string) {
    && s'.clients == s.clients && s'.tasks == s.tasks
    && (forall d :: d != c ==> SameConfig(s, s', d))
  }

  ghost predicate SameConfig(s: State, s': State, d: string) {
    && (d in s'.metas <==> d in s.metas) && (d in s.metas ==> s'.metas[d] == s.metas[d])
    && (d in s'.snapshots <==> d in s.snapshots) && (d in s.snapshots ==> s'.snapshots[d] == s.snapshots[d])
  }

  lemma OthersIntact(s: State, s': State, c: string)
    requires OnlyConfig(s, s', c) && Unreferenced(s, c)
    requires forall cl :: cl in s.clients ==> ClientIntact(s, cl)
    requires forall t :: t in s.tasks ==> TaskIntact(s, t)
    ensures forall cl :: cl in s'.clients ==> ClientIntact(s', cl)
    ensures forall t :: t in s'.tasks ==> TaskIntact(s', t)
  {
    forall cl | cl in s'.clients ensures ClientIntact(s', cl) {
      assert ClientIntact(s, cl);
      forall k | k in cl.comparisons ensures Intact(s', k) {
        assert SameConfig(s, s', k.config);
      }
      if cl.flight.Comparing? { assert SameConfig(s, s', cl.flight.comparison.config); }
    }
    forall t | t in s'.tasks ensures TaskIntact(s', t) {
      assert TaskIntact(s, t);
      if !t.released { assert SameConfig(s, s', t.config); }
    }
  }

  /** An unused configuration may change its Snapper, lose snapshots, come or go: nobody notices. */
  lemma UnusedMayChange(s: State, s': State, c: string)
    requires Sound(s) && Uses(s, c) == 0 && OnlyConfig(s, s', c)
    requires (c in s'.metas <==> c in s'.snapshots)
    requires (c in s'.metas ==> s'.metas[c].counter == 0 && 0 in s'.snapshots[c])
    requires c in s'.metas && s'.metas[c].snapper.Loaded? ==> Unoccupied(s, s'.metas[c].snapper.address, c)
    ensures Sound(s')
  {
    UnusedIsUnreferenced(s, c);
    OthersIntact(s, s', c);
    forall d: string ensures Counted(s', d) {
      assert Counted(s, d);
      if d != c { assert SameConfig(s, s', d); }
    }
    forall d ensures (d in s'.snapshots <==> d in s'.metas) && (d in s'.snapshots ==> 0 in s'.snapshots[d]) {
      if d != c { assert SameConfig(s, s', d); }
    }
    DistinctKept(s, s', c);
  }

  /** No other configuration has its Snapper at an address. */
  ghost predicate Unoccupied(s: State, address: nat, c: string) {
    forall d :: d in s.metas && d != c ==> s.metas[d].snapper != Loaded(address)
  }

  lemma DistinctKept(s: State, s': State, c: string)
    requires DistinctAddresses(s) && OnlyConfig(s, s', c)
    requires c in s'.metas && s'.metas[c].snapper.Loaded? ==> Unoccupied(s, s'.metas[c].snapper.address, c)
    ensures DistinctAddresses(s')
  {
    forall d, e | d in s'.metas && e in s'.metas && s'.metas[d].snapper.Loaded?
      && s'.metas[d].snapper == s'.metas[e].snapper
      ensures d == e
    {
      if d != c { assert SameConfig(s, s', d); }
      if e != c { assert SameConfig(s, s', e); }
    }
  }
}
