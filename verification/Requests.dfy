/** What the daemon is asked and what each critical section does to its state, in terms of the state alone. */
module Requests {
  import opened UseCount

  /** The exceptions that answer a request. */
  datatype Reply = Okay | UnknownConfig | ConfigLocked | ConfigInUse | IllegalSnapshot | NoComparison | Failed

  datatype Request =
    | NewConfig(config: string, onDisk: set<nat>)
    | DropConfig(config: string, works: bool)
    | Lock(config: string)
    | Unlock(config: string)
    | NewSnapshot(config: string, num: nat, works: bool)
    | NewPost(config: string, preNum: nat, num: nat, works: bool, background: bool)
    | DropSnapshots(config: string, nums: seq<nat>, blocked: set<nat>)
    | NewComparison(config: string, num1: nat, num2: nat)
    | DropComparison(config: string, num1: nat, num2: nat)

  datatype Action =
    | Connect(name: string)
    | Disconnect(client: nat)
    | Request(client: nat, request: Request, address: nat)
    | Finish(client: nat)
    | Abort(client: nat)
    | Release
    | Pop
    | Periodic(finished: set<string>, expired: set<string>)

  /** Some other living client holds a lock on the configuration. */
  ghost predicate LockedByOther(s: State, i: nat, c: string) {
    exists j :: 0 <= j < |s.clients| && j != i && !s.clients[j].zombie && c in s.clients[j].locks
  }

  /** An allocator hands out an address at which no Snapper lives. */
  predicate FreshAddress(s: State, address: nat) {
    forall c :: c in s.metas ==> s.metas[c].snapper != Loaded(address)
  }

  /** The k-th number can go: nobody has mounted it, it is not the live system, it is there, and it is not asked for
      twice. */
  ghost predicate CanGo(nums: seq<nat>, k: nat, blocked: set<nat>, there: set<nat>)
    requires k < |nums|
  {
    nums[k] !in blocked && nums[k] != 0 && nums[k] in there && nums[k] !in nums[..k]
  }

  ghost predicate FirstCanGo(nums: seq<nat>, k: nat, blocked: set<nat>, there: set<nat>)
    requires k <= |nums|
  {
    forall j :: 0 <= j < k ==> CanGo(nums, j, blocked, there)
  }

  ghost predicate StopsAt(nums: seq<nat>, k: nat, blocked: set<nat>, there: set<nat>) {
    k < |nums| && FirstCanGo(nums, k, blocked, there) && !CanGo(nums, k, blocked, there)
  }

  ghost predicate Goes(nums: seq<nat>, n: nat, blocked: set<nat>, there: set<nat>) {
    exists k :: 0 <= k < |nums| && nums[k] == n && FirstCanGo(nums, k + 1, blocked, there)
  }

  /** What is left of the numbers, and the answer: all go up to the first that cannot. */
  ghost predicate NumbersGone(nums: seq<nat>, blocked: set<nat>, there: set<nat>, left: set<nat>, r: Reply) {
    && (forall n :: n in left <==> n in there && !Goes(nums, n, blocked, there))
    && (r == Okay <==> FirstCanGo(nums, |nums|, blocked, there))
    && (r == Failed <==> exists k: nat :: StopsAt(nums, k, blocked, there) && nums[k] in blocked)
    && (r == IllegalSnapshot <==> exists k: nat :: StopsAt(nums, k, blocked, there) && nums[k] !in blocked)
  }

  /** The first comparison of a client with these two numbers and this Snapper. */
  ghost predicate FirstSuch(ks: seq<Comparison>, j: nat, address: nat, num1: nat, num2: nat) {
    && j < |ks| && ks[j].address == address && ks[j].num1 == num1 && ks[j].num2 == num2
    && forall m :: 0 <= m < j ==> !(ks[m].address == address && ks[m].num1 == num1 && ks[m].num2 == num2)
  }

  /** Asking for a Snapper loads one at the given address unless one is loaded; nothing else changes. */
  ghost predicate Obtained(s: State, s': State, c: string, address: nat)
    requires c in s.metas
  {
    var m := s.metas[c];
    s' == if m.snapper.Loaded? then s else s.(metas := s.metas[c := MetaSnapper(m.counter, Loaded(address))])
  }

  /** Who may delete: nobody refers to the configuration, and nobody else has locked it. */
  ghost predicate Refused(s: State, i: nat, c: string, r: Reply) {
    && (r == UnknownConfig <==> c !in s.metas)
    && (r == ConfigLocked <==> c in s.metas && LockedByOther(s, i, c))
    && (r == ConfigInUse <==> c in s.metas && !LockedByOther(s, i, c) && !Unreferenced(s, c))
  }

  /** The answer to a request of client i, and the state it leaves. */
  ghost predicate Answered(request: Request, i: nat, address: nat, r: Reply, s: State, s': State)
    requires i < |s.clients|
  {
    var cl, c := s.clients[i], request.config;
    if c !in s.metas && !request.NewConfig? then r == UnknownConfig && s' == s
    else
      match request
      case NewConfig(_, onDisk) =>
        if c in s.metas then r == Failed && s' == s
        else
          && r == Okay
          && s' == s.(metas := s.metas[c := MetaSnapper(0, NotLoaded)], snapshots := s.snapshots[c := onDisk + {0}])
      case DropConfig(_, works) =>
        && Refused(s, i, c, r) && r in {ConfigLocked, ConfigInUse, Okay, Failed} && (r == Okay ==> works)
        && (r == Failed ==> !works)
        && s' == if r == Okay then s.(metas := s.metas - {c}, snapshots := s.snapshots - {c}) else s
      case Lock(_) => r == Okay && s' == s.(clients := s.clients[i := cl.(locks := cl.locks + {c})])
      case Unlock(_) => r == Okay && s' == s.(clients := s.clients[i := cl.(locks := cl.locks - {c})])
      case NewSnapshot(_, num, works) => NewNumber(s, s', c, address, num, works, r)
      case NewPost(_, preNum, num, works, background) =>
        if c !in s.snapshots || preNum == 0 || preNum !in s.snapshots[c]
        then r == IllegalSnapshot && Obtained(s, s', c, address)
        else if !works || !background then NewNumber(s, s', c, address, num, works, r)
        else r == Okay && Queued(s, s', c, address, preNum, num)
      case DropSnapshots(_, nums, blocked) =>
        && Refused(s, i, c, r)
        && if r in {ConfigLocked, ConfigInUse} then s' == s else LessNumbers(s, s', c, address, nums, blocked, r)
      case NewComparison(_, num1, num2) => r == Okay && Begun(s, s', i, c, address, num1, num2)
      case DropComparison(_, num1, num2) => Dropped(s, s', i, c, address, num1, num2, r)
  }

  /** One number more. */
  ghost predicate NewNumber(s: State, s': State, c: string, address: nat, num: nat, works: bool, r: Reply)
    requires c in s.metas
  {
    && r == (if works then Okay else Failed)
    && exists s1 :: Obtained(s, s1, c, address) && c in s1.snapshots
         && s' == if works then s1.(snapshots := s1.snapshots[c := s1.snapshots[c] + {num}]) else s1
  }

  /** One number more, and a task that compares it with the other in the background. */
  ghost predicate Queued(s: State, s': State, c: string, address: nat, preNum: nat, num: nat)
    requires c in s.metas
  {
    exists s1 :: Obtained(s, s1, c, address) && c in s1.metas && c in s1.snapshots && s1.metas[c].snapper.Loaded?
      && s' == s1.(metas := s1.metas[c := MetaSnapper(s.metas[c].counter + 1, s1.metas[c].snapper)],
                   snapshots := s1.snapshots[c := s1.snapshots[c] + {num}],
                   tasks := s.tasks + [Task(c, s1.metas[c].snapper.address, preNum, num, false)])
  }

  ghost predicate LessNumbers(s: State, s': State, c: string, address: nat, nums: seq<nat>, blocked: set<nat>, r: Reply)
    requires c in s.metas
  {
    && c in s.snapshots && c in s'.snapshots && NumbersGone(nums, blocked, s.snapshots[c], s'.snapshots[c], r)
    && exists s1 :: Obtained(s, s1, c, address)
         && s' == s1.(snapshots := s1.snapshots[c := s'.snapshots[c]])
  }

  /** The client is comparing, and that is one use. */
  ghost predicate Begun(s: State, s': State, i: nat, c: string, address: nat, num1: nat, num2: nat)
    requires c in s.metas && i < |s.clients|
  {
    exists s1 :: Obtained(s, s1, c, address) && c in s1.metas && c in s.snapshots && s1.metas[c].snapper.Loaded?
      && (var legal := num1 in s.snapshots[c] && num2 in s.snapshots[c] && num1 != num2;
          var k := Comparison(c, s1.metas[c].snapper.address, num1, num2);
          s' == s1.(metas := s1.metas[c := MetaSnapper(s.metas[c].counter + 1, s1.metas[c].snapper)],
                    clients := s.clients[i := s.clients[i].(flight := Comparing(k, legal))]))
  }

  /** The first such comparison of the client goes, and with it one use. */
  ghost predicate Dropped(s: State, s': State, i: nat, c: string, address: nat, num1: nat, num2: nat, r: Reply)
    requires c in s.metas && i < |s.clients|
  {
    var ks := s.clients[i].comparisons;
    exists s1 :: Obtained(s, s1, c, address) && c in s1.metas && s1.metas[c].snapper.Loaded?
      && (var a := s1.metas[c].snapper.address;
          || (r == NoComparison && s' == s1
              && forall k :: k in ks ==> !(k.address == a && k.num1 == num1 && k.num2 == num2))
          || (r == Okay
              && exists j: nat :: FirstSuch(ks, j, a, num1, num2)
                   && s' == s1.(metas := s1.metas[c := MetaSnapper(s.metas[c].counter - 1, s1.metas[c].snapper)],
                                clients := s.clients[i := s.clients[i].(comparisons := ks[..j] + ks[j + 1..])])))
  }

  /** What one critical section does; one that cannot take place does nothing. */
  ghost predicate Happens(a: Action, r: Reply, s: State, s': State) {
    match a
    case Connect(name) => s' == s.(clients := s.clients + [Client(name, [], {}, Idle, false)])
    case Disconnect(i) =>
      s' == if i < |s.clients| then s.(clients := s.clients[i := s.clients[i].(zombie := true)]) else s
    case Request(i, request, address) =>
      if i < |s.clients| && s.clients[i].flight.Idle? && FreshAddress(s, address)
      then Answered(request, i, address, r, s, s') else s' == s
    case Finish(i) =>
      if i < |s.clients| && s.clients[i].flight.Comparing? && s.clients[i].flight.legal
      then
        var cl := s.clients[i];
        var ks := cl.comparisons + [cl.flight.comparison];
        s' == s.(clients := s.clients[i := cl.(comparisons := ks, flight := Idle)])
      else s' == s
    case Abort(i) =>
      if i < |s.clients| && s.clients[i].flight.Comparing?
      then
        var cl := s.clients[i];
        OneUseLess(s.(clients := s.clients[i := cl.(flight := Idle)]), s', cl.flight.comparison.config)
      else s' == s
    case Release =>
      if s.tasks != [] && !s.tasks[0].released
      then OneUseLess(s.(tasks := s.tasks[0 := s.tasks[0].(released := true)]), s', s.tasks[0].config)
      else s' == s
    case Pop => s' == if s.tasks != [] && s.tasks[0].released then s.(tasks := s.tasks[1..]) else s
    case Periodic(finished, expired) =>
      if forall cl :: cl in s.clients && cl.zombie && cl.name in finished ==> cl.flight.Idle?
      then Swept(s, s', finished, expired) else s' == s
  }

  ghost predicate OneUseLess(s: State, s': State, c: string) {
    c in s.metas && s' == s.(metas := s.metas[c := MetaSnapper(s.metas[c].counter - 1, s.metas[c].snapper)])
  }

  /** The clients that are no zombies, or whose threads have not ended. */
  function Staying(clients: seq<Client>, finished: set<string>): seq<Client> {
    if clients == [] then []
    else
      (if clients[0].zombie && clients[0].name in finished then [] else [clients[0]]) + Staying(clients[1..], finished)
  }

  /** The zombies whose threads have ended are gone with their uses, the others stay in their order; and what is unused
      then and expired has no Snapper any more. */
  ghost predicate Swept(s: State, s': State, finished: set<string>, expired: set<string>) {
    && s'.clients == Staying(s.clients, finished) && s'.tasks == s.tasks && s'.snapshots == s.snapshots
    && s'.metas.Keys == s.metas.Keys
    && forall c :: c in s.metas ==>
         s'.metas[c].snapper == if Unreferenced(s', c) && c in expired then NotLoaded else s.metas[c].snapper
  }
}
