/** Counting deploy slots (src/lib/deploy-concurrency.ts), in Redis with expiry and in memory. Times are
    seconds; each script is one atomic step, and so is the expiry of a key. */
module DeployConcurrency {
  import opened Wrappers
  import opened Text

  const SLOT_TTL_SEC := 7200

  datatype Key = Global | Server(id: string)

  /** A counter and, once `EXPIRE` has run, the time from which Redis may drop it. */
  datatype Counter = Counter(value: int, expireAt: Option<int>)

  type Store = map<Key, Counter>

  datatype Limits = Limits(total: int, perServer: int)

  /** `GET`, with a missing key read as 0. */
  function Value(store: Store, key: Key): int {
    if key in store then store[key].value else 0
  }

  function Incremented(store: Store, key: Key): Store {
    store[key := Counter(Value(store, key) + 1, if key in store then store[key].expireAt else None)]
  }

  function Decremented(store: Store, key: Key): Store {
    store[key := Counter(Value(store, key) - 1, if key in store then store[key].expireAt else None)]
  }

  function Expiring(store: Store, key: Key, at: int): Store {
    if key in store then store[key := store[key].(expireAt := Some(at))] else store
  }

  predicate HasRoom(store: Store, server: string, limits: Limits) {
    Value(store, Global) < limits.total && Value(store, Server(server)) < limits.perServer
  }

  /** What ACQUIRE_SCRIPT leaves when it returns 1. */
  function Acquired(store: Store, server: string, now: int): Store {
    var counted := Incremented(Incremented(store, Global), Server(server));
    Expiring(Expiring(counted, Global, now + SLOT_TTL_SEC), Server(server), now + SLOT_TTL_SEC)
  }

  function DecrementedAboveZero(store: Store, key: Key): Store {
    if Value(store, key) > 0 then Decremented(store, key) else store
  }

  /** What RELEASE_SCRIPT leaves. */
  function Released(store: Store, server: string): Store {
    DecrementedAboveZero(DecrementedAboveZero(store, Global), Server(server))
  }

  class Redis {
    var store: Store
    var now: int

    method Get(key: Key) returns (value: int)
      ensures value == Value(store, key)
    {
      value := if key in store then store[key].value else 0;
    }

    method Incr(key: Key)
      modifies this`store
      ensures store == Incremented(old(store), key)
    {
      store := Incremented(store, key);
    }

    method Decr(key: Key)
      modifies this`store
      ensures store == Decremented(old(store), key)
    {
      store := Decremented(store, key);
    }

    method Expire(key: Key, seconds: int)
      modifies this`store
      ensures store == Expiring(old(store), key, now + seconds)
    {
      store := Expiring(store, key, now + seconds);
    }

    /** ACQUIRE_SCRIPT: takes a slot exactly when both counters are below their limits. */
    method TryAcquireDeploySlots(server: string, limits: Limits) returns (ok: bool)
      modifies this`store
      ensures ok == HasRoom(old(store), server, limits)
      ensures store == if ok then Acquired(old(store), server, now) else old(store)
    {
      var global := Get(Global);
      if global >= limits.total { return false; }
      var active := Get(Server(server));
      if active >= limits.perServer { return false; }
      Incr(Global);
      Incr(Server(server));
      Expire(Global, SLOT_TTL_SEC);
      Expire(Server(server), SLOT_TTL_SEC);
      return true;
    }

    /** RELEASE_SCRIPT */
    method ReleaseDeploySlots(server: string)
      modifies this`store
      ensures store == Released(old(store), server)
    {
      var global := Get(Global);
      if global > 0 { Decr(Global); }
      var active := Get(Server(server));
      if active > 0 { Decr(Server(server)); }
    }
  }

  // ---------------------------------------------------------------- the in-memory twin

  datatype Memory = Memory(globalActive: int, perServer: map<string, int>)

  function ActiveOn(memory: Memory, server: string): int {
    if server in memory.perServer then memory.perServer[server] else 0
  }

  predicate HasRoomInMemory(memory: Memory, server: string, limits: Limits) {
    memory.globalActive < limits.total && ActiveOn(memory, server) < limits.perServer
  }

  function AcquiredInMemory(memory: Memory, server: string): Memory {
    Memory(memory.globalActive + 1, memory.perServer[server := ActiveOn(memory, server) + 1])
  }

  function ReleasedInMemory(memory: Memory, server: string): Memory {
    Memory(Max(0, memory.globalActive - 1), memory.perServer[server := Max(0, ActiveOn(memory, server) - 1)])
  }

  class MemorySlots {
    var globalActive: int
    var perServer: map<string, int>

    function Counts(): Memory
      reads this
    {
      Memory(globalActive, perServer)
    }

    constructor ()
      ensures Counts() == Memory(0, map[])
    {
      globalActive := 0;
      perServer := map[];
    }

    method TryAcquireDeploySlots(server: string, limits: Limits) returns (ok: bool)
      modifies this
      ensures ok == HasRoomInMemory(old(Counts()), server, limits)
      ensures Counts() == if ok then AcquiredInMemory(old(Counts()), server) else old(Counts())
    {
      if globalActive >= limits.total { return false; }
      var serverActive := if server in perServer then perServer[server] else 0;
      if serverActive >= limits.perServer { return false; }
      globalActive := globalActive + 1;
      perServer := perServer[server := serverActive + 1];
      return true;
    }

    method ReleaseDeploySlots(server: string)
      modifies this
      ensures Counts() == ReleasedInMemory(old(Counts()), server)
    {
      globalActive := Max(0, globalActive - 1);
      var serverActive := if server in perServer then perServer[server] else 0;
      perServer := perServer[server := Max(0, serverActive - 1)];
    }
  }

  // ---------------------------------------------------------------- runs

  /** A slot a client holds: taken on `server` at time `since` and not yet given back. */
  datatype Lease = Lease(server: string, since: int)

  /** The store, the clock, the leases of all clients by number, and a twin that counts in memory. */
  datatype State = State(store: Store, now: int, leases: map<nat, Lease>, memory: Memory)

  datatype Event =
    | Wait(seconds: nat)
    | Drop(key: Key)
    | Acquire(server: string, lease: nat)
    | Release(lease: nat)

  /** Redis drops a key no earlier than its expiry; a lease number is fresh when taken and held when given
      back. Any number of clients interleave in any order. */
  predicate Enabled(s: State, e: Event) {
    match e
    case Wait(_) => true
    case Drop(key) => key in s.store && s.store[key].expireAt.Some? && s.store[key].expireAt.value <= s.now
    case Acquire(_, lease) => lease !in s.leases
    case Release(lease) => lease in s.leases
  }

  function Next(s: State, e: Event, limits: Limits): State
    requires Enabled(s, e)
  {
    match e
    case Wait(seconds) => s.(now := s.now + seconds)
    case Drop(key) => s.(store := s.store - {key})
    case Acquire(server, lease) =>
      var memory := if HasRoomInMemory(s.memory, server, limits) then AcquiredInMemory(s.memory, server) else s.memory;
      if HasRoom(s.store, server, limits)
      then State(Acquired(s.store, server, s.now), s.now, s.leases[lease := Lease(server, s.now)], memory)
      else s.(memory := memory)
    case Release(lease) =>
      var server := s.leases[lease].server;
      State(Released(s.store, server), s.now, s.leases - {lease}, ReleasedInMemory(s.memory, server))
  }

  /** Every lease held is younger than `hold`. */
  predicate HeldUnder(s: State, hold: int) {
    forall id | id in s.leases :: s.now < s.leases[id].since + hold
  }

  /** A run in which every lease is given back once, before it is `hold` old. */
  predicate HeldRun(s: State, events: seq<Event>, limits: Limits, hold: int)
    decreases |events|
  {
    HeldUnder(s, hold) &&
    (events == [] || (Enabled(s, events[0]) && HeldRun(Next(s, events[0], limits), events[1..], limits, hold)))
  }

  /** Every lease held is younger than the time the keys live. */
  predicate InTime(s: State) { HeldUnder(s, SLOT_TTL_SEC) }

  /** A run in which every lease is given back once, in time. */
  predicate TimelyRun(s: State, events: seq<Event>, limits: Limits) { HeldRun(s, events, limits, SLOT_TTL_SEC) }

  predicate PossibleRun(s: State, events: seq<Event>, limits: Limits)
    decreases |events|
  {
    events == [] || (Enabled(s, events[0]) && PossibleRun(Next(s, events[0], limits), events[1..], limits))
  }

  function Run(s: State, events: seq<Event>, limits: Limits): State
    requires PossibleRun(s, events, limits)
    decreases |events|
  {
    if events == [] then s else Run(Next(s, events[0], limits), events[1..], limits)
  }

  const START := State(map[], 0, map[], Memory(0, map[]))

  function LeasesOn(leases: map<nat, Lease>, server: string): set<nat> {
    set id | id in leases && leases[id].server == server
  }

  /** A key counts a lease until the lease is given back, however the other leases come and go. */
  predicate KeyOutlives(store: Store, key: Key, lease: Lease) {
    && key in store
    && (store[key].expireAt.Some? ==> lease.since + SLOT_TTL_SEC <= store[key].expireAt.value)
  }

  ghost predicate CountsAreRight(s: State) {
    && Value(s.store, Global) == |s.leases| == s.memory.globalActive
    && (forall server :: Value(s.store, Server(server)) == |LeasesOn(s.leases, server)| == ActiveOn(s.memory, server))
  }

  ghost predicate KeysOutlive(s: State) {
    forall id | id in s.leases ::
      KeyOutlives(s.store, Global, s.leases[id]) && KeyOutlives(s.store, Server(s.leases[id].server), s.leases[id])
  }

  ghost predicate WithinLimits(s: State, limits: Limits) {
    && |s.leases| <= Max(0, limits.total)
    && (forall server :: |LeasesOn(s.leases, server)| <= Max(0, limits.perServer))
  }

  ghost predicate Inv(s: State, limits: Limits) {
    CountsAreRight(s) && KeysOutlive(s) && WithinLimits(s, limits) && forall id | id in s.leases :: s.leases[id].since <= s.now
  }

  lemma LeaseAdded(leases: map<nat, Lease>, id: nat, lease: Lease)
    requires id !in leases
    ensures |leases[id := lease]| == |leases| + 1
    ensures forall server :: |LeasesOn(leases[id := lease], server)| ==
                             |LeasesOn(leases, server)| + (if server == lease.server then 1 else 0)
  {
    var more := leases[id := lease];
    assert more.Keys == leases.Keys + {id} && |more| == |more.Keys| && |leases| == |leases.Keys|;
    forall server ensures |LeasesOn(more, server)| == |LeasesOn(leases, server)| + (if server == lease.server then 1 else 0) {
      if server == lease.server {
        assert LeasesOn(more, server) == LeasesOn(leases, server) + {id};
      } else {
        assert LeasesOn(more, server) == LeasesOn(leases, server);
      }
    }
  }

  lemma LeaseRemoved(leases: map<nat, Lease>, id: nat)
    requires id in leases
    ensures |leases - {id}| == |leases| - 1
    ensures forall server :: |LeasesOn(leases - {id}, server)| ==
                             |LeasesOn(leases, server)| - (if server == leases[id].server then 1 else 0)
  {
    var fewer := leases - {id};
    LeaseAdded(fewer, id, leases[id]);
    assert fewer[id := leases[id]] == leases;
  }

  lemma NotOutlived(s: State, key: Key, lease: Lease)
    requires Enabled(s, Drop(key)) && s.now < lease.since + SLOT_TTL_SEC
    ensures !KeyOutlives(s.store, key, lease)
  {
  }

  /** A key that is due to expire counts no lease held in time. */
  lemma OnlyIdleKeysExpire(s: State, key: Key, limits: Limits)
    requires Inv(s, limits) && InTime(s) && Enabled(s, Drop(key))
    ensures Value(s.store, key) == 0
  {
    forall id | id in s.leases ensures !KeyOutlives(s.store, key, s.leases[id]) {
      NotOutlived(s, key, s.leases[id]);
    }
    match key
    case Global => assert s.leases.Keys == {};
    case Server(server) => assert LeasesOn(s.leases, server) == {};
  }

  lemma AcquiredStore(store: Store, server: string, now: int)
    ensures forall key :: Value(Acquired(store, server, now), key) ==
                          Value(store, key) + (if key in {Global, Server(server)} then 1 else 0)
    ensures forall key, lease | KeyOutlives(store, key, lease) && lease.since <= now ::
              KeyOutlives(Acquired(store, server, now), key, lease)
    ensures KeyOutlives(Acquired(store, server, now), Global, Lease(server, now))
    ensures KeyOutlives(Acquired(store, server, now), Server(server), Lease(server, now))
  {
  }

  lemma AcquireKeepsInv(s: State, server: string, lease: nat, limits: Limits)
    requires Inv(s, limits) && lease !in s.leases
    ensures Inv(Next(s, Acquire(server, lease), limits), limits)
  {
    hide LeasesOn, Acquired, KeyOutlives;
    if HasRoom(s.store, server, limits) {
      LeaseAdded(s.leases, lease, Lease(server, s.now));
      AcquiredStore(s.store, server, s.now);
      var t := Next(s, Acquire(server, lease), limits);
      forall id | id in t.leases
        ensures KeyOutlives(t.store, Global, t.leases[id]) && KeyOutlives(t.store, Server(t.leases[id].server), t.leases[id])
      {
        if id != lease {
          assert KeyOutlives(s.store, Global, s.leases[id]);
          assert KeyOutlives(s.store, Server(s.leases[id].server), s.leases[id]);
        }
      }
      assert KeysOutlive(t);
      assert CountsAreRight(t);
      assert WithinLimits(t, limits);
    }
  }

  lemma ReleasedStore(store: Store, server: string)
    requires Value(store, Global) > 0 && Value(store, Server(server)) > 0
    ensures forall key :: Value(Released(store, server), key) ==
                          Value(store, key) - (if key in {Global, Server(server)} then 1 else 0)
    ensures forall key, lease | KeyOutlives(store, key, lease) :: KeyOutlives(Released(store, server), key, lease)
    ensures forall key | key in store :: key in Released(store, server) && Released(store, server)[key].expireAt == store[key].expireAt
  {
  }

  lemma HeldIsCounted(s: State, lease: nat, limits: Limits)
    requires Inv(s, limits) && lease in s.leases
    ensures Value(s.store, Global) > 0 && Value(s.store, Server(s.leases[lease].server)) > 0
  {
    assert lease in LeasesOn(s.leases, s.leases[lease].server);
    assert |s.leases| == |s.leases.Keys| > 0;
  }

  lemma ReleaseKeepsInv(s: State, lease: nat, limits: Limits)
    requires Inv(s, limits) && lease in s.leases
    ensures Inv(Next(s, Release(lease), limits), limits)
  {
    hide LeasesOn, Released, KeyOutlives;
    HeldIsCounted(s, lease, limits);
    LeaseRemoved(s.leases, lease);
    ReleasedStore(s.store, s.leases[lease].server);
  }

  lemma StepKeepsInv(s: State, e: Event, limits: Limits)
    requires Inv(s, limits) && InTime(s) && Enabled(s, e)
    ensures Inv(Next(s, e, limits), limits)
  {
    match e
    case Wait(_) =>
    case Drop(key) =>
      OnlyIdleKeysExpire(s, key, limits);
      var t := Next(s, e, limits);
      assert forall k :: Value(t.store, k) == Value(s.store, k);
      forall id | id in s.leases
        ensures KeyOutlives(t.store, Global, s.leases[id]) && KeyOutlives(t.store, Server(s.leases[id].server), s.leases[id])
      {
        HeldIsCounted(s, id, limits);
      }
    case Acquire(server, lease) => AcquireKeepsInv(s, server, lease, limits);
    case Release(lease) => ReleaseKeepsInv(s, lease, limits);
  }

  /** Whatever the interleaving, as long as every lease is given back in time: each counter is the number
      of leases it counts, and so is the counter of the twin in memory, no limit is ever exceeded, and no
      key that counts a lease is ever dropped. */
  lemma {:induction false} TimelyRunsCountLeases(s: State, events: seq<Event>, limits: Limits)
    requires Inv(s, limits) && TimelyRun(s, events, limits)
    ensures PossibleRun(s, events, limits) && Inv(Run(s, events, limits), limits)
    decreases |events|
  {
    if events != [] {
      hide Inv, InTime;
      StepKeepsInv(s, events[0], limits);
      TimelyRunsCountLeases(Next(s, events[0], limits), events[1..], limits);
    }
  }

  lemma StartIsInv(limits: Limits)
    ensures Inv(START, limits)
  {
    assert forall server :: LeasesOn(START.leases, server) == {};
  }

  /** From the empty store: the limits hold, both back ends count the leases and take the same decision
      next, a release finds both its counters above zero, and with no lease left every counter is 0. */
  lemma SlotsNeverExceedLimits(events: seq<Event>, limits: Limits, server: string)
    requires TimelyRun(START, events, limits)
    ensures PossibleRun(START, events, limits)
    ensures var s := Run(START, events, limits);
            && WithinLimits(s, limits) && CountsAreRight(s)
            && HasRoom(s.store, server, limits) == HasRoomInMemory(s.memory, server, limits)
            && (forall id | id in s.leases ::
                  Value(s.store, Global) > 0 && Value(s.store, Server(s.leases[id].server)) > 0)
            && (s.leases == map[] ==> forall key :: Value(s.store, key) == 0)
  {
    StartIsInv(limits);
    TimelyRunsCountLeases(START, events, limits);
    var s := Run(START, events, limits);
    forall id | id in s.leases
      ensures Value(s.store, Global) > 0 && Value(s.store, Server(s.leases[id].server)) > 0
    {
      HeldIsCounted(s, id, limits);
    }
    if s.leases == map[] {
      forall key ensures Value(s.store, key) == 0 {
        if key.Server? { assert LeasesOn(s.leases, key.id) == {}; }
      }
    }
  }

  lemma SlotIsGiven(s: State, server: string, lease: nat, limits: Limits)
    requires Inv(s, limits) && lease !in s.leases
    ensures Next(s, Acquire(server, lease), limits) ==
            if |s.leases| < limits.total && |LeasesOn(s.leases, server)| < limits.perServer
            then State(Acquired(s.store, server, s.now), s.now, s.leases[lease := Lease(server, s.now)],
                       AcquiredInMemory(s.memory, server))
            else s
  {
    hide LeasesOn, Acquired, KeysOutlive;
  }

  lemma SlotIsFreed(s: State, t: State, server: string, lease: nat, limits: Limits)
    requires Inv(s, limits) && Inv(t, limits) && lease !in s.leases && t.leases == s.leases[lease := Lease(server, s.now)]
    ensures var u := Next(t, Release(lease), limits);
            u.leases == s.leases && CountsAreRight(u) && forall key :: Value(u.store, key) == Value(s.store, key)
  {
    hide LeasesOn, Released, KeysOutlive;
    assert t.leases - {lease} == s.leases;
    ReleaseKeepsInv(t, lease, limits);
    var u := Next(t, Release(lease), limits);
    forall key ensures Value(u.store, key) == Value(s.store, key) {
      if key.Server? { assert Value(u.store, Server(key.id)) == |LeasesOn(s.leases, key.id)|; }
    }
  }

  /** In such a run a slot is given exactly when fewer leases are held than both limits allow, in Redis and in
      memory alike; a refusal changes nothing, and a release frees the slot it took and no other. */
  lemma SlotsGoToWhoFits(events: seq<Event>, limits: Limits, server: string, lease: nat)
    requires TimelyRun(START, events, limits) && PossibleRun(START, events, limits)
    requires lease !in Run(START, events, limits).leases
    ensures var s := Run(START, events, limits);
            var t := Next(s, Acquire(server, lease), limits);
            && (if |s.leases| < limits.total && |LeasesOn(s.leases, server)| < limits.perServer
                then t.leases == s.leases[lease := Lease(server, s.now)] else t == s)
            && CountsAreRight(t)
            && (lease in t.leases ==>
                  var u := Next(t, Release(lease), limits);
                  u.leases == s.leases && CountsAreRight(u) && forall key :: Value(u.store, key) == Value(s.store, key))
  {
    StartIsInv(limits);
    TimelyRunsCountLeases(START, events, limits);
    var s := Run(START, events, limits);
    AcquireKeepsInv(s, server, lease, limits);
    SlotIsGiven(s, server, lease, limits);
    hide Next, Acquired, LeasesOn, KeysOutlive, WithinLimits, Value, TimelyRun;
    var t := Next(s, Acquire(server, lease), limits);
    if lease in t.leases { SlotIsFreed(s, t, server, lease, limits); }
  }

  ghost predicate NoneBelowZero(s: State) {
    && (forall key :: Value(s.store, key) >= 0)
    && s.memory.globalActive >= 0 && forall server :: ActiveOn(s.memory, server) >= 0
  }

  /** Whatever happens, late releases included, no counter falls below zero. */
  lemma {:induction false} CountersStayAboveZero(s: State, events: seq<Event>, limits: Limits)
    requires NoneBelowZero(s) && PossibleRun(s, events, limits)
    ensures NoneBelowZero(Run(s, events, limits))
    decreases |events|
  {
    if events != [] {
      StepStaysAboveZero(s, events[0], limits);
      CountersStayAboveZero(Next(s, events[0], limits), events[1..], limits);
    }
  }

  lemma StepStaysAboveZero(s: State, e: Event, limits: Limits)
    requires NoneBelowZero(s) && Enabled(s, e)
    ensures NoneBelowZero(Next(s, e, limits))
  {
    var t := Next(s, e, limits);
    if e.Acquire? { AcquiredStore(s.store, e.server, s.now); }
    forall key ensures Value(t.store, key) >= 0 {
      assert Value(s.store, key) >= 0;
    }
    forall server ensures ActiveOn(t.memory, server) >= 0 {
      assert ActiveOn(s.memory, server) >= 0;
    }
  }

  // ---------------------------------------------------------------- how long a lease may be held

  /** The first `n` leases, all on one server, at the start. */
  function Filling(server: string, n: nat): seq<Event> {
    if n == 0 then [] else Filling(server, n - 1) + [Acquire(server, n - 1)]
  }

  function Leases(server: string, n: nat): (leases: map<nat, Lease>)
    ensures forall id: nat :: id in leases <==> id < n
    ensures forall id | id in leases :: leases[id] == Lease(server, 0)
  {
    if n == 0 then map[] else Leases(server, n - 1)[n - 1 := Lease(server, 0)]
  }

  /** What they leave; the counters run out together. */
  function Filled(server: string, n: nat): State {
    if n == 0 then START
    else
      var counter := Counter(n, Some(SLOT_TTL_SEC));
      State(map[Global := counter, Server(server) := counter], 0, Leases(server, n), Memory(n, map[server := n]))
  }

  lemma FilledNext(server: string, n: nat, limits: Limits)
    requires n < limits.total && n < limits.perServer
    ensures Enabled(Filled(server, n), Acquire(server, n))
    ensures Next(Filled(server, n), Acquire(server, n), limits) == Filled(server, n + 1)
  {
    var s := Filled(server, n);
    assert Acquired(s.store, server, 0) == Filled(server, n + 1).store;
  }

  lemma {:induction false} FillingRuns(server: string, n: nat, limits: Limits, hold: int, rest: seq<Event>)
    requires n <= limits.total && n <= limits.perServer && hold > 0
    requires HeldRun(Filled(server, n), rest, limits, hold)
    ensures HeldRun(START, Filling(server, n) + rest, limits, hold)
    ensures PossibleRun(START, Filling(server, n) + rest, limits) && PossibleRun(Filled(server, n), rest, limits)
    ensures Run(START, Filling(server, n) + rest, limits) == Run(Filled(server, n), rest, limits)
  {
    hide *;
    HeldIsPossible(Filled(server, n), rest, limits, hold);
    FillingGrows(server, n, rest);
    if n > 0 {
      var last := Acquire(server, n - 1);
      FilledNext(server, n - 1, limits);
      FilledIsYoung(server, n - 1, hold);
      Prepend(Filled(server, n - 1), last, rest, limits, hold);
      FillingRuns(server, n - 1, limits, hold, [last] + rest);
    }
  }

  lemma FillingGrows(server: string, n: nat, rest: seq<Event>)
    ensures n == 0 ==> Filling(server, n) + rest == rest && Filled(server, n) == START
    ensures n > 0 ==> Filling(server, n) + rest == Filling(server, n - 1) + ([Acquire(server, n - 1)] + rest)
  {
  }

  lemma FilledIsYoung(server: string, n: nat, hold: int)
    requires hold > 0
    ensures HeldUnder(Filled(server, n), hold)
  {
  }

  lemma {:induction false} HeldIsPossible(s: State, events: seq<Event>, limits: Limits, hold: int)
    requires HeldRun(s, events, limits, hold)
    ensures PossibleRun(s, events, limits)
    decreases |events|
  {
    if events != [] { HeldIsPossible(Next(s, events[0], limits), events[1..], limits, hold); }
  }

  lemma Prepend(s: State, e: Event, events: seq<Event>, limits: Limits, hold: int)
    requires HeldUnder(s, hold) && Enabled(s, e) && HeldRun(Next(s, e, limits), events, limits, hold)
    ensures HeldRun(s, [e] + events, limits, hold) && PossibleRun(s, [e] + events, limits)
    ensures PossibleRun(Next(s, e, limits), events, limits)
    ensures Run(s, [e] + events, limits) == Run(Next(s, e, limits), events, limits)
  {
    HeldIsPossible(Next(s, e, limits), events, limits, hold);
    assert ([e] + events)[1..] == events;
  }

  lemma {:induction false} LeasesCounted(server: string, n: nat)
    ensures |Leases(server, n)| == n == |LeasesOn(Leases(server, n), server)|
  {
    if n == 0 {
      assert LeasesOn(Leases(server, 0), server) == {};
    } else {
      LeasesCounted(server, n - 1);
      LeaseAdded(Leases(server, n - 1), n - 1, Lease(server, 0));
    }
  }

  /** After `n` leases: wait until the keys run out, let both go, and take one more. */
  function TakingOneMore(server: string, n: nat): seq<Event> {
    [Wait(SLOT_TTL_SEC)] + ([Drop(Global)] + ([Drop(Server(server))] + ([Acquire(server, n)] + [])))
  }

  lemma OneMoreIsTaken(server: string, n: nat, limits: Limits, hold: int)
    requires n > 0 && limits.total > 0 && limits.perServer > 0 && hold > SLOT_TTL_SEC
    ensures HeldRun(Filled(server, n), TakingOneMore(server, n), limits, hold)
    ensures PossibleRun(Filled(server, n), TakingOneMore(server, n), limits)
    ensures Run(Filled(server, n), TakingOneMore(server, n), limits).leases == Leases(server, n)[n := Lease(server, SLOT_TTL_SEC)]
  {
    var s0 := Filled(server, n);
    var s1 := Next(s0, Wait(SLOT_TTL_SEC), limits);
    var s2 := Next(s1, Drop(Global), limits);
    var s3 := Next(s2, Drop(Server(server)), limits);
    var s4 := Next(s3, Acquire(server, n), limits);
    assert s3.store == map[];
    assert HeldUnder(s0, hold) && HeldUnder(s1, hold) && HeldUnder(s2, hold) && HeldUnder(s3, hold) && HeldUnder(s4, hold);
    assert Enabled(s2, Drop(Server(server))) && Enabled(s3, Acquire(server, n));
    hide Next, Enabled, Filled, HeldUnder;
    Prepend(s3, Acquire(server, n), [], limits, hold);
    Prepend(s2, Drop(Server(server)), [Acquire(server, n)] + [], limits, hold);
    Prepend(s1, Drop(Global), [Drop(Server(server))] + ([Acquire(server, n)] + []), limits, hold);
    Prepend(s0, Wait(SLOT_TTL_SEC), [Drop(Global)] + ([Drop(Server(server))] + ([Acquire(server, n)] + [])), limits, hold);
  }

  /** Leases held for as long as the keys live are forgotten: whatever the limits, a full server then gives one
      lease too many. */
  lemma LateReleaseBreaksTheLimit(server: string, limits: Limits, hold: int)
    requires limits.total > 0 && limits.perServer > 0 && hold > SLOT_TTL_SEC
    ensures var events := Filling(server, Min(limits.total, limits.perServer)) +
                          TakingOneMore(server, Min(limits.total, limits.perServer));
            && HeldRun(START, events, limits, hold) && PossibleRun(START, events, limits)
            && !WithinLimits(Run(START, events, limits), limits)
  {
    var n := Min(limits.total, limits.perServer);
    hide Filled, HeldRun, PossibleRun, Run, LeasesOn;
    OneMoreIsTaken(server, n, limits, hold);
    FillingRuns(server, n, limits, hold, TakingOneMore(server, n));
    LeasesCounted(server, n);
    LeaseAdded(Leases(server, n), n, Lease(server, SLOT_TTL_SEC));
    var leases := Leases(server, n)[n := Lease(server, SLOT_TTL_SEC)];
    assert |leases| == n + 1 == |LeasesOn(leases, server)|;
  }

  lemma {:induction false} ShorterHold(s: State, events: seq<Event>, limits: Limits, hold: int, longer: int)
    requires HeldRun(s, events, limits, hold) && hold <= longer
    ensures HeldRun(s, events, limits, longer)
    decreases |events|
  {
    if events != [] { ShorterHold(Next(s, events[0], limits), events[1..], limits, hold, longer); }
  }

  /** Without room for one lease there never is any. */
  lemma {:induction false} NoRoomNoLease(s: State, events: seq<Event>, limits: Limits)
    requires limits.total <= 0 || limits.perServer <= 0
    requires s.store == map[] && s.leases == map[] && PossibleRun(s, events, limits)
    ensures Run(s, events, limits).leases == map[]
    decreases |events|
  {
    if events != [] { NoRoomNoLease(Next(s, events[0], limits), events[1..], limits); }
  }

  ghost predicate KeepsLimits(limits: Limits, hold: int) {
    forall events | HeldRun(START, events, limits, hold) ::
      PossibleRun(START, events, limits) && WithinLimits(Run(START, events, limits), limits)
  }

  /** The limits hold in every interleaving that gives its leases back before they are `hold` old if and only if
      the keys live at least as long, or there is no room for any lease. */
  lemma HoldTimeIsExact(limits: Limits, hold: int)
    ensures KeepsLimits(limits, hold) <==> hold <= SLOT_TTL_SEC || limits.total <= 0 || limits.perServer <= 0
  {
    hide HeldRun, WithinLimits, CountsAreRight, PossibleRun, Run;
    if limits.total <= 0 || limits.perServer <= 0 {
      forall events | HeldRun(START, events, limits, hold)
        ensures PossibleRun(START, events, limits) && WithinLimits(Run(START, events, limits), limits)
      {
        HeldIsPossible(START, events, limits, hold);
        NoRoomNoLease(START, events, limits);
        NoLeaseIsWithin(Run(START, events, limits), limits);
      }
    } else if hold <= SLOT_TTL_SEC {
      forall events | HeldRun(START, events, limits, hold)
        ensures PossibleRun(START, events, limits) && WithinLimits(Run(START, events, limits), limits)
      {
        ShorterHold(START, events, limits, hold, SLOT_TTL_SEC);
        SlotsNeverExceedLimits(events, limits, "");
      }
    } else {
      LateReleaseBreaksTheLimit("", limits, hold);
    }
  }

  lemma NoLeaseIsWithin(s: State, limits: Limits)
    requires s.leases == map[]
    ensures WithinLimits(s, limits)
  {
    assert forall server :: LeasesOn(s.leases, server) == {};
  }
}
