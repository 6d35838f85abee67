/** A lease on a Redis key: taken with SET NX, kept with GET and EXPIRE, given back with a compare-and-delete
    script. src/lib/deploy-worker-lock.ts holds one for the leading worker, src/lib/server-patch-lock.ts one
    per server. Times are seconds; every command is one atomic step, and so is the expiry of a key. */
module RedisLease {
  import opened Wrappers

  const LEADER_KEY := "pushify:deploy-worker:leader"
  const LEADER_TTL_SEC := 20
  const SERVER_PATCH_LOCK_TTL_SECONDS := 3600

  function ServerPatchLockKey(serverId: string): string {
    "pushify:server-patch:" + serverId
  }

  datatype Entry = Entry(holder: string, expireAt: int)

  type Store = map<string, Entry>

  predicate HeldBy(store: Store, key: string, token: string) {
    key in store && store[key].holder == token
  }

  /** `SET … EX … NX`, which does nothing to a key that is there. */
  function SetIfAbsent(store: Store, key: string, entry: Entry): Store {
    if key in store then store else store[key := entry]
  }

  /** `EXPIRE`, which does nothing to a missing key. */
  function Renewed(store: Store, key: string, at: int): Store {
    if key in store then store[key := store[key].(expireAt := at)] else store
  }

  /** The script of both releases: delete the key if it still has the token. */
  function GivenBack(store: Store, key: string, token: string): Store {
    if HeldBy(store, key, token) then store - {key} else store
  }

  /** The key has no holder any more if it had this one, and nothing else changed. */
  ghost predicate IsFreed(before: Store, after: Store, key: string, token: string) {
    && (key in after <==> key in before && before[key].holder != token)
    && forall other | other != key || !HeldBy(before, key, token) ::
         (other in after <==> other in before) && (other in before ==> after[other] == before[other])
  }

  lemma GivenBackIsFreed(store: Store, key: string, token: string)
    ensures IsFreed(store, GivenBack(store, key, token), key, token)
  {
  }

  /** A connection. A command that fails gives no reply; `late` says whether it took effect all the same. */
  class Redis {
    var store: Store
    var now: int
    /** How many more commands are answered; the one after them fails. */
    var answered: nat
    var late: bool

    method SetNx(key: string, token: string, seconds: int) returns (reply: Option<bool>)
      modifies this`store, this`answered
      ensures reply == if old(answered) == 0 then None else Some(key !in old(store))
      ensures store == if old(answered) == 0 && !late then old(store) else SetIfAbsent(old(store), key, Entry(token, now + seconds))
      ensures answered == if old(answered) == 0 then 0 else old(answered) - 1
    {
      if answered == 0 {
        if late { store := SetIfAbsent(store, key, Entry(token, now + seconds)); }
        return None;
      }
      answered := answered - 1;
      reply := Some(key !in store);
      store := SetIfAbsent(store, key, Entry(token, now + seconds));
    }

    method Get(key: string) returns (reply: Option<Option<string>>)
      modifies this`answered
      ensures reply.None? <==> old(answered) == 0
      ensures reply.Some? ==> forall token :: reply.value == Some(token) <==> HeldBy(store, key, token)
      ensures answered == if old(answered) == 0 then 0 else old(answered) - 1
    {
      if answered == 0 { return None; }
      answered := answered - 1;
      reply := Some(if key in store then Some(store[key].holder) else None);
    }

    method Expire(key: string, seconds: int) returns (ok: bool)
      modifies this`store, this`answered
      ensures ok == (old(answered) > 0)
      ensures store == if old(answered) == 0 && !late then old(store) else Renewed(old(store), key, now + seconds)
      ensures answered == if old(answered) == 0 then 0 else old(answered) - 1
    {
      ok := answered > 0;
      if answered > 0 { answered := answered - 1; }
      if ok || late { store := Renewed(store, key, now + seconds); }
    }

    method DeleteIfHeld(key: string, token: string) returns (ok: bool)
      modifies this`store, this`answered
      ensures ok == (old(answered) > 0)
      ensures store == if old(answered) == 0 && !late then old(store) else GivenBack(old(store), key, token)
      ensures answered == if old(answered) == 0 then 0 else old(answered) - 1
    {
      ok := answered > 0;
      if answered > 0 { answered := answered - 1; }
      if ok || late { store := GivenBack(store, key, token); }
    }
  }

  predicate Takeable(store: Store, key: string, token: string) {
    key !in store || HeldBy(store, key, token)
  }

  /** Undisturbed, taking a lease succeeds exactly when the key is free or already has the token, and then runs
      the full time. None when a command fails: the lease is then as it was, or taken without the caller
      knowing. */
  method AcquireLease(redis: Redis, key: string, token: string, seconds: int) returns (ok: Option<bool>)
    modifies redis`store, redis`answered
    ensures ok.Some? ==>
              && ok.value == (key !in old(redis.store) || old(redis.store)[key].holder == token)
              && redis.store == if ok.value then old(redis.store)[key := Entry(token, redis.now + seconds)] else old(redis.store)
    ensures ok.None? ==>
              || redis.store == old(redis.store)
              || (Takeable(old(redis.store), key, token) && redis.store == old(redis.store)[key := Entry(token, redis.now + seconds)])
    ensures old(redis.answered) >= 3 ==> ok.Some?
  {
    var acquired := redis.SetNx(key, token, seconds);
    if acquired.None? { return None; }
    if acquired.value { return Some(true); }
    var current := redis.Get(key);
    if current.None? { return None; }
    if current.value == Some(token) {
      var renewed := redis.Expire(key, seconds);
      return if renewed then Some(true) else None;
    }
    return Some(false);
  }

  /** Without Redis every worker polls; a worker whose command fails does not. */
  method TryHoldDeployWorkerLeadership(redis: Redis?, holderId: string) returns (ok: bool)
    modifies (if redis != null then {redis} else {})`store, (if redis != null then {redis} else {})`answered
    ensures redis == null ==> ok
    ensures redis != null ==>
              var taken := old(redis.store)[LEADER_KEY := Entry(holderId, redis.now + LEADER_TTL_SEC)];
              && (ok ==> Takeable(old(redis.store), LEADER_KEY, holderId) && redis.store == taken)
              && (!ok ==> redis.store == old(redis.store) || (old(redis.answered) < 3 && redis.store == taken))
              && (old(redis.answered) >= 3 ==> ok == Takeable(old(redis.store), LEADER_KEY, holderId))
  {
    if redis == null { return true; }
    var held := AcquireLease(redis, LEADER_KEY, holderId, LEADER_TTL_SEC);
    ok := held == Some(true);
  }

  /** A command that fails is ignored: the key runs out by itself. */
  method ReleaseDeployWorkerLeadership(redis: Redis?, holderId: string)
    modifies (if redis != null then {redis} else {})`store, (if redis != null then {redis} else {})`answered
    ensures redis != null && old(redis.answered) > 0 ==> IsFreed(old(redis.store), redis.store, LEADER_KEY, holderId)
    ensures redis != null && old(redis.answered) == 0 ==>
              redis.store == old(redis.store) || IsFreed(old(redis.store), redis.store, LEADER_KEY, holderId)
  {
    if redis == null { return; }
    GivenBackIsFreed(redis.store, LEADER_KEY, holderId);
    var _ := redis.DeleteIfHeld(LEADER_KEY, holderId);
  }

  /** Without Redis no run may start; a command that fails is thrown at the caller, which is None. */
  method AcquireServerPatchLock(redis: Redis?, serverId: string, token: string) returns (ok: Option<bool>)
    modifies (if redis != null then {redis} else {})`store, (if redis != null then {redis} else {})`answered
    ensures redis == null ==> ok == Some(false)
    ensures redis != null ==>
              var key := ServerPatchLockKey(serverId);
              var taken := old(redis.store)[key := Entry(token, redis.now + SERVER_PATCH_LOCK_TTL_SECONDS)];
              && (ok.Some? ==> ok.value == Takeable(old(redis.store), key, token))
              && (ok.Some? ==> redis.store == if ok.value then taken else old(redis.store))
              && (ok.None? ==> old(redis.answered) < 3 && (redis.store == old(redis.store) || redis.store == taken))
  {
    if redis == null { return Some(false); }
    ok := AcquireLease(redis, ServerPatchLockKey(serverId), token, SERVER_PATCH_LOCK_TTL_SECONDS);
  }

  method ReleaseServerPatchLock(redis: Redis?, serverId: string, token: string)
    modifies (if redis != null then {redis} else {})`store, (if redis != null then {redis} else {})`answered
    ensures redis != null && old(redis.answered) > 0 ==> IsFreed(old(redis.store), redis.store, ServerPatchLockKey(serverId), token)
    ensures redis != null && old(redis.answered) == 0 ==>
              redis.store == old(redis.store) || IsFreed(old(redis.store), redis.store, ServerPatchLockKey(serverId), token)
  {
    if redis == null { return; }
    GivenBackIsFreed(redis.store, ServerPatchLockKey(serverId), token);
    var _ := redis.DeleteIfHeld(ServerPatchLockKey(serverId), token);
  }

  // ---------------------------------------------------------------- interleaved clients

  /** The command an acquire still has to send. */
  datatype Phase = Setting | Reading | Renewing

  datatype Call = Call(key: string, token: string, phase: Phase)

  /** A token's claim to a key, since the last command that made an acquire return true. */
  datatype Claim = Claim(key: string, token: string)

  datatype State = State(store: Store, now: int, calls: map<nat, Call>, holds: map<Claim, int>)

  datatype Event =
    | Wait(seconds: nat)
    | Drop(key: string)
    | Begin(call: nat, key: string, token: string)
    | Send(call: nat)
    | Fail(call: nat, late: bool)
    | Release(key: string, token: string)
    | FailRelease(key: string, token: string)

  /** Any number of acquires and releases interleave, command by command; a command may fail before or after it
      took effect, which ends its acquire without a hold; a key is dropped no earlier than its expiry. */
  predicate Enabled(s: State, e: Event) {
    match e
    case Wait(_) => true
    case Drop(key) => key in s.store && s.store[key].expireAt <= s.now
    case Begin(call, _, _) => call !in s.calls
    case Send(call) => call in s.calls
    case Fail(call, _) => call in s.calls
    case Release(_, _) => true
    case FailRelease(_, _) => true
  }

  /** The acquire returns true: its token holds the key from now on. */
  function Succeed(s: State, call: nat, store: Store): State
    requires call in s.calls
  {
    State(store, s.now, s.calls - {call}, s.holds[Claim(s.calls[call].key, s.calls[call].token) := s.now])
  }

  /** What the command an acquire sends next does to the store. */
  function Effect(store: Store, call: Call, at: int): Store {
    match call.phase
    case Setting => SetIfAbsent(store, call.key, Entry(call.token, at))
    case Reading => store
    case Renewing => Renewed(store, call.key, at)
  }

  function Next(s: State, e: Event, ttl: nat): State
    requires Enabled(s, e)
  {
    match e
    case Wait(seconds) => s.(now := s.now + seconds)
    case Drop(key) => s.(store := s.store - {key})
    case Begin(call, key, token) => s.(calls := s.calls[call := Call(key, token, Setting)])
    case Send(call) =>
      var Call(key, token, phase) := s.calls[call];
      (match phase
       case Setting =>
         if key !in s.store then Succeed(s, call, s.store[key := Entry(token, s.now + ttl)])
         else s.(calls := s.calls[call := Call(key, token, Reading)])
       case Reading =>
         if HeldBy(s.store, key, token) then s.(calls := s.calls[call := Call(key, token, Renewing)])
         else s.(calls := s.calls - {call})
       case Renewing => Succeed(s, call, Renewed(s.store, key, s.now + ttl)))
    case Fail(call, late) =>
      s.(store := if late then Effect(s.store, s.calls[call], s.now + ttl) else s.store, calls := s.calls - {call})
    case Release(key, token) =>
      s.(store := GivenBack(s.store, key, token), holds := s.holds - {Claim(key, token)})
    case FailRelease(key, token) => s.(holds := s.holds - {Claim(key, token)})
  }

  /** The lease did not run out, and was not given back, between the GET of an acquire and its EXPIRE. */
  predicate Unbroken(s: State, e: Event)
    requires Enabled(s, e)
  {
    e.Send? && s.calls[e.call].phase == Renewing ==> HeldBy(s.store, s.calls[e.call].key, s.calls[e.call].token)
  }

  predicate PossibleRun(s: State, events: seq<Event>, ttl: nat)
    decreases |events|
  {
    events == [] || (Enabled(s, events[0]) && PossibleRun(Next(s, events[0], ttl), events[1..], ttl))
  }

  predicate UnbrokenRun(s: State, events: seq<Event>, ttl: nat)
    requires PossibleRun(s, events, ttl)
    decreases |events|
  {
    events == [] || (Unbroken(s, events[0]) && UnbrokenRun(Next(s, events[0], ttl), events[1..], ttl))
  }

  function Run(s: State, events: seq<Event>, ttl: nat): State
    requires PossibleRun(s, events, ttl)
    decreases |events|
  {
    if events == [] then s else Run(Next(s, events[0], ttl), events[1..], ttl)
  }

  const START := State(map[], 0, map[], map[])

  /** A hold not given back and younger than the lease's time. */
  predicate Holds(s: State, key: string, token: string, ttl: nat) {
    Claim(key, token) in s.holds && s.now < s.holds[Claim(key, token)] + ttl
  }

  ghost predicate AtMostOneHolder(s: State, ttl: nat) {
    forall key, token, token' | Holds(s, key, token, ttl) && Holds(s, key, token', ttl) :: token == token'
  }

  /** Whoever holds a key is in the store, until the hold is too old to count. */
  ghost predicate Inv(s: State, ttl: nat) {
    && (forall key, token | Holds(s, key, token, ttl) ::
          HeldBy(s.store, key, token) && s.holds[Claim(key, token)] + ttl <= s.store[key].expireAt)
    && (forall claim | claim in s.holds :: s.holds[claim] <= s.now)
  }

  lemma StepKeepsInv(s: State, e: Event, ttl: nat)
    requires Inv(s, ttl) && Enabled(s, e) && Unbroken(s, e)
    ensures Inv(Next(s, e, ttl), ttl)
  {
    var t := Next(s, e, ttl);
    forall key, token | Holds(t, key, token, ttl)
      ensures HeldBy(t.store, key, token) && t.holds[Claim(key, token)] + ttl <= t.store[key].expireAt
    {
      if Claim(key, token) in s.holds && s.holds[Claim(key, token)] == t.holds[Claim(key, token)] {
        assert Holds(s, key, token, ttl);
      }
    }
  }

  lemma {:induction false} RunKeepsInv(s: State, events: seq<Event>, ttl: nat)
    requires Inv(s, ttl) && PossibleRun(s, events, ttl) && UnbrokenRun(s, events, ttl)
    ensures Inv(Run(s, events, ttl), ttl)
    decreases |events|
  {
    if events != [] {
      hide Inv, Unbroken, Enabled;
      StepKeepsInv(s, events[0], ttl);
      RunKeepsInv(Next(s, events[0], ttl), events[1..], ttl);
    }
  }

  /** If no lease runs out between an acquire's GET and its EXPIRE, at most one token has an unreleased hold
      of a key younger than the lease, at every point of every interleaving. */
  lemma LeasesExclude(events: seq<Event>, ttl: nat)
    requires PossibleRun(START, events, ttl) && UnbrokenRun(START, events, ttl)
    ensures AtMostOneHolder(Run(START, events, ttl), ttl)
  {
    RunKeepsInv(START, events, ttl);
  }

  /** The condition is exact: where an EXPIRE follows a lost lease, the run can go on so that two tokens
      hold the key, every later EXPIRE finding its own lease. */
  lemma BrokenRenewalBreaksExclusion(s: State, call: nat, ttl: nat) returns (events: seq<Event>)
    requires ttl > 0 && Inv(s, ttl) && Enabled(s, Send(call)) && !Unbroken(s, Send(call))
    ensures PossibleRun(s, events, ttl) && events != [] && events[0] == Send(call)
    ensures UnbrokenRun(Next(s, Send(call), ttl), events[1..], ttl)
    ensures !AtMostOneHolder(Run(s, events, ttl), ttl)
  {
    var Call(key, token, _) := s.calls[call];
    var s1 := Next(s, Send(call), ttl);
    assert Holds(s1, key, token, ttl);
    if key !in s.store {
      var other := token + "x";
      var s2 := Next(s1, Begin(call, key, other), ttl);
      var s3 := Next(s2, Send(call), ttl);
      assert Holds(s3, key, token, ttl) && Holds(s3, key, other, ttl);
      events := [Send(call), Begin(call, key, other), Send(call)];
      Stepwise(s2, [Send(call)], ttl);
      Stepwise(s1, [Begin(call, key, other), Send(call)], ttl);
      Stepwise(s, events, ttl);
    } else {
      var other := s.store[key].holder;
      var s2 := Next(s1, Begin(call, key, other), ttl);
      var s3 := Next(s2, Send(call), ttl);
      var s4 := Next(s3, Send(call), ttl);
      var s5 := Next(s4, Send(call), ttl);
      assert Holds(s5, key, token, ttl) && Holds(s5, key, other, ttl);
      events := [Send(call), Begin(call, key, other), Send(call), Send(call), Send(call)];
      Stepwise(s4, [Send(call)], ttl);
      Stepwise(s3, [Send(call), Send(call)], ttl);
      Stepwise(s2, [Send(call), Send(call), Send(call)], ttl);
      Stepwise(s1, [Begin(call, key, other), Send(call), Send(call), Send(call)], ttl);
      Stepwise(s, events, ttl);
    }
  }

  lemma Stepwise(s: State, events: seq<Event>, ttl: nat)
    requires events != [] && Enabled(s, events[0]) && PossibleRun(Next(s, events[0], ttl), events[1..], ttl)
    ensures PossibleRun(s, events, ttl)
    ensures Run(s, events, ttl) == Run(Next(s, events[0], ttl), events[1..], ttl)
    ensures Unbroken(s, events[0]) && UnbrokenRun(Next(s, events[0], ttl), events[1..], ttl) ==> UnbrokenRun(s, events, ttl)
  {
  }

  /** From the start such a run exists: a worker's lease runs out while it renews, and another leads too. */
  lemma TwoLeadersAreReachable(a: string, key: string, ttl: nat) returns (events: seq<Event>)
    requires ttl > 0
    ensures PossibleRun(START, events, ttl) && !AtMostOneHolder(Run(START, events, ttl), ttl)
  {
    var begin := Begin(0, key, a);
    var s1 := Next(START, begin, ttl);
    var s2 := Next(s1, Send(0), ttl);
    var s3 := Next(s2, Wait(ttl), ttl);
    var s4 := Next(s3, begin, ttl);
    var s5 := Next(s4, Send(0), ttl);
    var s6 := Next(s5, Send(0), ttl);
    assert s6.calls[0].phase == Renewing;
    var s7 := Next(s6, Drop(key), ttl);
    var tail := BrokenRenewalBreaksExclusion(s7, 0, ttl);
    Prepend(s6, Drop(key), tail, ttl);
    Prepend(s5, Send(0), [Drop(key)] + tail, ttl);
    Prepend(s4, Send(0), [Send(0)] + ([Drop(key)] + tail), ttl);
    Prepend(s3, begin, [Send(0)] + ([Send(0)] + ([Drop(key)] + tail)), ttl);
    Prepend(s2, Wait(ttl), [begin] + ([Send(0)] + ([Send(0)] + ([Drop(key)] + tail))), ttl);
    Prepend(s1, Send(0), [Wait(ttl)] + ([begin] + ([Send(0)] + ([Send(0)] + ([Drop(key)] + tail)))), ttl);
    Prepend(START, begin, [Send(0)] + ([Wait(ttl)] + ([begin] + ([Send(0)] + ([Send(0)] + ([Drop(key)] + tail))))), ttl);
    events := [begin] + ([Send(0)] + ([Wait(ttl)] + ([begin] + ([Send(0)] + ([Send(0)] + ([Drop(key)] + tail))))));
  }

  lemma Prepend(s: State, e: Event, events: seq<Event>, ttl: nat)
    requires Enabled(s, e) && PossibleRun(Next(s, e, ttl), events, ttl)
    ensures PossibleRun(s, [e] + events, ttl)
    ensures Run(s, [e] + events, ttl) == Run(Next(s, e, ttl), events, ttl)
  {
    assert ([e] + events)[1..] == events;
    Stepwise(s, [e] + events, ttl);
  }

  /** An acquire that nobody disturbs: whoever finds the key free, or has it, holds it for the full time from now
      on, and whoever finds it with another gives up and changes nothing. */
  lemma UndisturbedAcquire(s: State, call: nat, key: string, token: string, ttl: nat)
    requires call !in s.calls && ttl > 0
    ensures var sent := Next(Next(s, Begin(call, key, token), ttl), Send(call), ttl);
            var taken := State(s.store[key := Entry(token, s.now + ttl)], s.now, s.calls, s.holds[Claim(key, token) := s.now]);
            if key !in s.store then sent == taken
            else
              && Enabled(sent, Send(call))
              && var read := Next(sent, Send(call), ttl);
                 if HeldBy(s.store, key, token) then Enabled(read, Send(call)) && Next(read, Send(call), ttl) == taken
                 else read == s
  {
    var begun := Next(s, Begin(call, key, token), ttl);
    assert begun.calls - {call} == s.calls;
    var sent := Next(begun, Send(call), ttl);
    if key in s.store {
      assert sent.calls - {call} == s.calls;
      var read := Next(sent, Send(call), ttl);
      if HeldBy(s.store, key, token) {
        assert read.calls - {call} == s.calls;
      }
    }
  }

  /** A command that fails ends its acquire without a claim; the store is as it was, or as the command left it. */
  lemma FailureClaimsNothing(s: State, call: nat, late: bool, ttl: nat)
    requires call in s.calls
    ensures var t, Call(key, token, phase) := Next(s, Fail(call, late), ttl), s.calls[call];
            && t.holds == s.holds && t.calls == s.calls - {call} && t.now == s.now
            && (!late || phase == Reading ==> t.store == s.store)
            && (late && phase == Setting ==> t.store == if key in s.store then s.store else s.store[key := Entry(token, s.now + ttl)])
            && (late && phase == Renewing ==> t.store.Keys == s.store.Keys)
            && forall other | other in s.store && other != key :: other in t.store && t.store[other] == s.store[other]
  {
  }

  /** A release that fails gives the claim up all the same; the key runs out by itself. */
  lemma FailedReleaseKeepsTheKey(s: State, key: string, token: string, ttl: nat)
    ensures var t := Next(s, FailRelease(key, token), ttl);
            && t.store == s.store && Claim(key, token) !in t.holds
            && forall claim | claim != Claim(key, token) :: claim in t.holds <==> claim in s.holds
  {
  }

  /** A release by the holder frees the key and nothing else, and whoever asks next has it at once. */
  lemma ReleaseFreesTheKey(s: State, key: string, token: string, call: nat, next: string, ttl: nat)
    requires HeldBy(s.store, key, token) && call !in s.calls && ttl > 0
    ensures var t := Next(s, Release(key, token), ttl);
            && IsFreed(s.store, t.store, key, token) && key !in t.store && !Holds(t, key, token, ttl)
            && var begun := Next(t, Begin(call, key, next), ttl);
               Holds(Next(begun, Send(call), ttl), key, next, ttl)
  {
    GivenBackIsFreed(s.store, key, token);
  }

  /** A release by a token that is not in the store leaves the store, and every other hold, as it was. */
  lemma ReleaseByOthersChangesNothing(s: State, key: string, token: string, ttl: nat)
    requires !HeldBy(s.store, key, token)
    ensures Next(s, Release(key, token), ttl).store == s.store
    ensures forall claim | claim != Claim(key, token) ::
              claim in Next(s, Release(key, token), ttl).holds <==> claim in s.holds
    ensures Inv(s, ttl) ==> !Holds(s, key, token, ttl)
  {
  }

  /** A lock of one server is never another's, and none of them is the leader's. */
  lemma ServersHaveTheirOwnKeys(a: string, b: string)
    ensures ServerPatchLockKey(a) == ServerPatchLockKey(b) <==> a == b
    ensures ServerPatchLockKey(a) != LEADER_KEY
  {
    if ServerPatchLockKey(a) == ServerPatchLockKey(b) {
      assert a == ServerPatchLockKey(a)[21..] && b == ServerPatchLockKey(b)[21..];
    }
    assert ServerPatchLockKey(a)[8] == 's' && LEADER_KEY[8] == 'd';
  }
}
