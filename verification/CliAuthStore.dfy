/** Where CLI login sessions live between creation, approval and collection (src/lib/cli-auth-store.ts): a
    Redis hash per code, or a map in memory. Each Redis command is one atomic step; a take reads first and
    deletes after. */
module CliAuthStore {
  import opened Wrappers

  datatype Approval = Approval(userId: string, organizationId: string)

  datatype Status = Pending | Approved

  /** An approval as stored, encrypted with a secret. */
  datatype Sealed = Sealed(approval: Approval, secret: string)

  /** Decryption, which fails with another secret. */
  function Opened(sealed: Sealed, secret: string): Option<Approval> {
    if sealed.secret == secret then Some(sealed.approval) else None
  }

  /** The fields of a session. A hash that only an approval wrote has no `expiresAt`. */
  datatype Row = Row(status: Status, expiresAt: Option<int>, sealed: Option<Sealed>)

  /** A row and the time from which Redis may drop it, once one is set. */
  datatype Hash = Hash(row: Row, dropAt: Option<int>)

  type Store = map<string, Hash>

  /** `HSET key status pending expiresAt …`: the other fields of a hash already there stay. */
  function SetPending(store: Store, key: string, expiresAt: int): Store {
    if key in store
    then store[key := store[key].(row := store[key].row.(status := Pending, expiresAt := Some(expiresAt)))]
    else store[key := Hash(Row(Pending, Some(expiresAt), None), None)]
  }

  /** `HSET key status approved approval …`: on a missing key this makes a new hash. */
  function SetApproved(store: Store, key: string, sealed: Sealed): Store {
    if key in store
    then store[key := store[key].(row := store[key].row.(status := Approved, sealed := Some(sealed)))]
    else store[key := Hash(Row(Approved, None, Some(sealed)), None)]
  }

  function DropAt(store: Store, key: string, at: int): Store {
    if key in store then store[key := store[key].(dropAt := Some(at))] else store
  }

  /** What a take finds when it reads: the approval of an approved session. */
  function Collectable(store: Store, key: string): Option<Sealed> {
    if key in store && store[key].row.status == Approved then store[key].row.sealed else None
  }

  class Redis {
    var store: Store
    var now: int

    method HSetPending(key: string, expiresAt: int)
      modifies this`store
      ensures store == SetPending(old(store), key, expiresAt)
    {
      store := SetPending(store, key, expiresAt);
    }

    method HSetApproved(key: string, sealed: Sealed)
      modifies this`store
      ensures store == SetApproved(old(store), key, sealed)
    {
      store := SetApproved(store, key, sealed);
    }

    method PExpireAt(key: string, at: int)
      modifies this`store
      ensures store == DropAt(old(store), key, at)
    {
      store := DropAt(store, key, at);
    }

    method HGetAll(key: string) returns (row: Option<Row>)
      ensures row == if key in store then Some(store[key].row) else None
    {
      row := if key in store then Some(store[key].row) else None;
    }

    method Del(key: string) returns (deleted: nat)
      modifies this`store
      ensures deleted == if key in old(store) then 1 else 0
      ensures store == old(store) - {key}
    {
      deleted := if key in store then 1 else 0;
      store := store - {key};
    }
  }

  // ---------------------------------------------------------------- in memory

  datatype MemoryRow = MemoryRow(status: Status, expiresAt: int, sealed: Option<Sealed>)

  type Memory = map<string, MemoryRow>

  function Swept(memory: Memory, now: int): Memory {
    map key | key in memory && !(memory[key].expiresAt < now) :: memory[key]
  }

  function MemoryCollectable(memory: Memory, key: string): Option<Sealed> {
    if key in memory && memory[key].status == Approved then memory[key].sealed else None
  }

  function MemoryApproved(memory: Memory, key: string, sealed: Sealed): Memory {
    if key in memory then memory[key := memory[key].(status := Approved, sealed := Some(sealed))] else memory
  }

  /** Each method of the in-memory back end runs without a pause, so it is one step. */
  datatype MemoryEvent =
    | MemCreate(key: string, expiresAt: int, now: int)
    | MemApprove(key: string, sealed: Sealed)
    | MemTake(key: string)
    | MemRemove(key: string)

  function MemoryNext(memory: Memory, e: MemoryEvent): Memory {
    match e
    case MemCreate(key, expiresAt, now) => Swept(memory, now)[key := MemoryRow(Pending, expiresAt, None)]
    case MemApprove(key, sealed) => MemoryApproved(memory, key, sealed)
    case MemTake(key) => if MemoryCollectable(memory, key).Some? then memory - {key} else memory
    case MemRemove(key) => memory - {key}
  }

  /** A session lives from its create to its time: while it waits nothing can be collected, an approval makes it
      collectable without giving it more time, and every other session is left alone. */
  lemma SessionsLiveUntilTheirTime(store: Store, key: string, at: int, sealed: Sealed)
    ensures var created := DropAt(SetPending(store, key, at), key, at);
            var approved := SetApproved(created, key, sealed);
            && key in created && created[key].row.status == Pending && created[key].row.expiresAt == Some(at)
            && created[key].dropAt == Some(at) && Collectable(created, key) == None
            && created[key].row.sealed == (if key in store then store[key].row.sealed else None)
            && key in approved && Collectable(approved, key) == Some(sealed)
            && approved[key].row.expiresAt == Some(at) && approved[key].dropAt == Some(at)
            && forall other | other != key ::
                 && (other in approved <==> other in store) && (other in created <==> other in store)
                 && (other in store ==> approved[other] == created[other] == store[other])
  {
  }

  /** In memory the same; creating one drops exactly the sessions that are past their time, an approval makes no
      session, and a take removes one exactly when it is approved. */
  lemma MemorySessionsLiveUntilTheirTime(memory: Memory, key: string, at: int, now: int, sealed: Sealed)
    ensures var created := MemoryNext(memory, MemCreate(key, at, now));
            var approved := MemoryNext(created, MemApprove(key, sealed));
            && key in created && created[key] == MemoryRow(Pending, at, None) && MemoryNext(created, MemTake(key)) == created
            && key in approved && approved[key] == MemoryRow(Approved, at, Some(sealed))
            && MemoryCollectable(approved, key) == Some(sealed) && MemoryNext(approved, MemTake(key)) == approved - {key}
            && forall other | other != key ::
                 && (other in approved <==> other in memory && now <= memory[other].expiresAt)
                 && (other in approved ==> approved[other] == memory[other])
    ensures key !in memory ==> MemoryNext(memory, MemApprove(key, sealed)) == memory
    ensures MemoryNext(memory, MemRemove(key)) == memory - {key}
  {
  }

  const PREFIX := "cli-auth:"

  datatype SessionState = SessionState(status: Status, expiresAt: Option<int>)

  class AuthStore {
    const redis: Redis?
    const secret: string
    var memory: Memory

    constructor (redis: Redis?, secret: string)
      ensures this.redis == redis && this.secret == secret && memory == map[]
    {
      this.redis := redis;
      this.secret := secret;
      memory := map[];
    }

    method SweepMemory(now: int)
      modifies this
      ensures memory == Swept(old(memory), now)
      ensures forall k :: k in memory <==> k in old(memory) && now <= old(memory)[k].expiresAt
      ensures forall k | k in memory :: memory[k] == old(memory)[k]
    {
      var before := memory;
      var left := memory.Keys;
      while left != {}
        invariant left <= before.Keys && memory.Keys <= before.Keys
        invariant forall k | k in before.Keys - left :: k in memory <==> k in Swept(before, now)
        invariant forall k | k in left :: k in memory
        invariant forall k | k in memory :: memory[k] == before[k]
        decreases left
      {
        var k :| k in left;
        if memory[k].expiresAt < now {
          memory := memory - {k};
        }
        left := left - {k};
      }
      assert memory.Keys == Swept(before, now).Keys;
    }

    method Create(codeHash: string, expiresAt: int, now: int)
      modifies this, if redis != null then {redis} else {}
      ensures redis != null ==>
                memory == old(memory) &&
                redis.store == DropAt(SetPending(old(redis.store), PREFIX + codeHash, expiresAt), PREFIX + codeHash, expiresAt)
      ensures redis == null ==> memory == MemoryNext(old(memory), MemCreate(codeHash, expiresAt, now))
      ensures redis == null ==> forall k | k != codeHash ::
                && (k in memory <==> k in old(memory) && now <= old(memory)[k].expiresAt)
                && (k in memory ==> memory[k] == old(memory)[k])
    {
      if redis != null {
        redis.HSetPending(PREFIX + codeHash, expiresAt);
        redis.PExpireAt(PREFIX + codeHash, expiresAt);
        return;
      }
      SweepMemory(now);
      memory := memory[codeHash := MemoryRow(Pending, expiresAt, None)];
    }

    /** A session that is there and not past its time; a hash without a time never is. */
    method Get(codeHash: string, now: int) returns (session: Option<SessionState>)
      ensures redis != null ==>
                session == (if PREFIX + codeHash !in redis.store then None
                            else var row := redis.store[PREFIX + codeHash].row;
                                 if row.expiresAt.Some? && row.expiresAt.value < now then None
                                 else Some(SessionState(row.status, row.expiresAt)))
      ensures redis == null ==>
                session == (if codeHash !in memory || memory[codeHash].expiresAt < now then None
                            else Some(SessionState(memory[codeHash].status, Some(memory[codeHash].expiresAt))))
    {
      if redis != null {
        var row := redis.HGetAll(PREFIX + codeHash);
        if row.None? { return None; }
        var expiresAt := row.value.expiresAt;
        if expiresAt.Some? && expiresAt.value < now { return None; }
        return Some(SessionState(row.value.status, expiresAt));
      }
      if codeHash !in memory || memory[codeHash].expiresAt < now { return None; }
      return Some(SessionState(memory[codeHash].status, Some(memory[codeHash].expiresAt)));
    }

    method Approve(codeHash: string, approval: Approval)
      modifies this, if redis != null then {redis} else {}
      ensures redis != null ==>
                memory == old(memory) && redis.store == SetApproved(old(redis.store), PREFIX + codeHash, Sealed(approval, secret))
      ensures redis == null ==> memory == MemoryNext(old(memory), MemApprove(codeHash, Sealed(approval, secret)))
    {
      var sealed := Sealed(approval, secret);
      if redis != null {
        redis.HSetApproved(PREFIX + codeHash, sealed);
        return;
      }
      if codeHash in memory {
        memory := memory[codeHash := memory[codeHash].(status := Approved, sealed := Some(sealed))];
      }
    }

    /** Undisturbed, a take removes the session exactly when it is approved, and hands out the approval unless it
        was encrypted with another secret. */
    method Take(codeHash: string) returns (approval: Option<Approval>)
      modifies this, if redis != null then {redis} else {}
      ensures redis != null ==>
                memory == old(memory) &&
                match Collectable(old(redis.store), PREFIX + codeHash)
                case None => approval == None && redis.store == old(redis.store)
                case Some(sealed) =>
                  && approval == (if sealed.secret == secret then Some(sealed.approval) else None)
                  && redis.store == old(redis.store) - {PREFIX + codeHash}
      ensures redis == null ==>
                && memory == MemoryNext(old(memory), MemTake(codeHash))
                && match MemoryCollectable(old(memory), codeHash)
                   case None => approval == None
                   case Some(sealed) => approval == if sealed.secret == secret then Some(sealed.approval) else None
    {
      var sealed;
      if redis != null {
        var row := redis.HGetAll(PREFIX + codeHash);
        if row.None? || row.value.status != Approved || row.value.sealed.None? { return None; }
        var deleted := redis.Del(PREFIX + codeHash);
        if deleted != 1 { return None; }
        sealed := row.value.sealed.value;
      } else {
        if codeHash !in memory || memory[codeHash].status != Approved || memory[codeHash].sealed.None? { return None; }
        sealed := memory[codeHash].sealed.value;
        memory := memory - {codeHash};
      }
      return Opened(sealed, secret);
    }

    method Remove(codeHash: string)
      modifies this, if redis != null then {redis} else {}
      ensures redis != null ==> memory == old(memory) && redis.store == old(redis.store) - {PREFIX + codeHash}
      ensures redis == null ==> memory == MemoryNext(old(memory), MemRemove(codeHash))
    {
      if redis != null {
        var _ := redis.Del(PREFIX + codeHash);
      } else {
        memory := memory - {codeHash};
      }
    }
  }

  // ---------------------------------------------------------------- interleaved processes on Redis

  /** What a process still has to send: the expiry of a session it created, or the delete of one it read. */
  datatype Unfinished = Expiring(key: string, at: int) | Deleting(key: string, sealed: Sealed, secret: string)

  /** `written` remembers every approval ever written, by key. */
  datatype State = State(store: Store, now: int, calls: map<nat, Unfinished>, written: set<(string, Sealed)>)

  datatype Event =
    | Wait(ms: nat)
    | Drop(key: string)
    | Create(call: nat, key: string, expiresAt: int)
    | Approve(key: string, sealed: Sealed)
    | Take(call: nat, key: string, secret: string)
    | Finish(call: nat)
    | Remove(key: string)

  predicate Enabled(s: State, e: Event) {
    match e
    case Drop(key) => key in s.store && s.store[key].dropAt.Some? && s.store[key].dropAt.value <= s.now
    case Create(call, _, _) => call !in s.calls
    case Take(call, _, _) => call !in s.calls
    case Finish(call) => call in s.calls
    case _ => true
  }

  function Next(s: State, e: Event): State
    requires Enabled(s, e)
  {
    match e
    case Wait(ms) => s.(now := s.now + ms)
    case Drop(key) => s.(store := s.store - {key})
    case Create(call, key, expiresAt) =>
      s.(store := SetPending(s.store, key, expiresAt), calls := s.calls[call := Expiring(key, expiresAt)])
    case Approve(key, sealed) =>
      s.(store := SetApproved(s.store, key, sealed), written := s.written + {(key, sealed)})
    case Take(call, key, secret) =>
      (match Collectable(s.store, key)
       case None => s
       case Some(sealed) => s.(calls := s.calls[call := Deleting(key, sealed, secret)]))
    case Finish(call) =>
      (match s.calls[call]
       case Expiring(key, at) => s.(store := DropAt(s.store, key, at), calls := s.calls - {call})
       case Deleting(key, _, _) => s.(store := s.store - {key}, calls := s.calls - {call}))
    case Remove(key) => s.(store := s.store - {key})
  }

  /** The approval a step hands out for a key: only a take whose delete removed the key and whose secret opens
      it. */
  function HandedOut(s: State, e: Event, key: string): Option<Sealed>
    requires Enabled(s, e)
  {
    if && e.Finish? && s.calls[e.call].Deleting? && s.calls[e.call].key == key && key in s.store
       && Opened(s.calls[e.call].sealed, s.calls[e.call].secret).Some?
    then Some(s.calls[e.call].sealed) else None
  }

  predicate PossibleRun(s: State, events: seq<Event>)
    decreases |events|
  {
    events == [] || (Enabled(s, events[0]) && PossibleRun(Next(s, events[0]), events[1..]))
  }

  function Run(s: State, events: seq<Event>): State
    requires PossibleRun(s, events)
    decreases |events|
  {
    if events == [] then s else Run(Next(s, events[0]), events[1..])
  }

  /** The approvals handed out for a key along a run. */
  function Taken(s: State, events: seq<Event>, key: string): seq<Sealed>
    requires PossibleRun(s, events)
    decreases |events|
  {
    if events == [] then []
    else
      (match HandedOut(s, events[0], key) case None => [] case Some(a) => [a]) +
      Taken(Next(s, events[0]), events[1..], key)
  }

  /** How often the key came into existence along a run. */
  function Births(s: State, events: seq<Event>, key: string): nat
    requires PossibleRun(s, events)
    decreases |events|
  {
    if events == [] then 0
    else
      (if key !in s.store && key in Next(s, events[0]).store then 1 else 0) +
      Births(Next(s, events[0]), events[1..], key)
  }

  const START := State(map[], 0, map[], {})

  /** Every approval in the store or on its way out was written for its key. */
  ghost predicate Genuine(s: State) {
    && (forall key | key in s.store && s.store[key].row.sealed.Some? :: (key, s.store[key].row.sealed.value) in s.written)
    && (forall call | call in s.calls && s.calls[call].Deleting? :: (s.calls[call].key, s.calls[call].sealed) in s.written)
  }

  lemma GenuineStays(s: State, e: Event)
    requires Genuine(s) && Enabled(s, e)
    ensures Genuine(Next(s, e)) && s.written <= Next(s, e).written
  {
  }

  function Here(s: State, key: string): nat { if key in s.store then 1 else 0 }

  lemma {:induction false} TakesAreCounted(s: State, events: seq<Event>, key: string)
    requires PossibleRun(s, events) && Genuine(s)
    ensures |Taken(s, events, key)| + Here(Run(s, events), key) <= Births(s, events, key) + Here(s, key)
    ensures forall a | a in Taken(s, events, key) :: (key, a) in Run(s, events).written
    ensures s.written <= Run(s, events).written
    decreases |events|
  {
    if events != [] {
      GenuineStays(s, events[0]);
      TakesAreCounted(Next(s, events[0]), events[1..], key);
      assert Here(Next(s, events[0]), key) + (if HandedOut(s, events[0], key).Some? then 1 else 0) <=
             Here(s, key) + (if key !in s.store && key in Next(s, events[0]).store then 1 else 0);
    }
  }

  /** However takes, creates, approvals, removals and expiry interleave, a code is handed out at most as
      often as its key came into existence, and only approvals written for it. */
  lemma TakesNeverExceedBirths(events: seq<Event>, key: string)
    requires PossibleRun(START, events)
    ensures |Taken(START, events, key)| <= Births(START, events, key)
    ensures forall a | a in Taken(START, events, key) :: (key, a) in Run(START, events).written
  {
    TakesAreCounted(START, events, key);
  }

  function Creates(events: seq<Event>, key: string): nat {
    if events == [] then 0
    else (if events[0].Create? && events[0].key == key then 1 else 0) + Creates(events[1..], key)
  }

  /** No approval is written for a session that is gone: consumed, removed or expired. */
  predicate ApprovalsInTime(s: State, events: seq<Event>, key: string)
    requires PossibleRun(s, events)
    decreases |events|
  {
    events == [] ||
    ((events[0].Approve? && events[0].key == key ==> key in s.store) &&
     ApprovalsInTime(Next(s, events[0]), events[1..], key))
  }

  /** The approvals written for a session that is gone. */
  function LateApprovals(s: State, events: seq<Event>, key: string): nat
    requires PossibleRun(s, events)
    decreases |events|
  {
    if events == [] then 0
    else
      (if events[0].Approve? && events[0].key == key && key !in s.store then 1 else 0) +
      LateApprovals(Next(s, events[0]), events[1..], key)
  }

  lemma {:induction false} InTimeIsNeverLate(s: State, events: seq<Event>, key: string)
    requires PossibleRun(s, events)
    ensures ApprovalsInTime(s, events, key) <==> LateApprovals(s, events, key) == 0
    decreases |events|
  {
    if events != [] { InTimeIsNeverLate(Next(s, events[0]), events[1..], key); }
  }

  lemma {:induction false} BirthsAreCreatesOrLate(s: State, events: seq<Event>, key: string)
    requires PossibleRun(s, events)
    ensures Births(s, events, key) <= Creates(events, key) + LateApprovals(s, events, key)
    decreases |events|
  {
    if events != [] { BirthsAreCreatesOrLate(Next(s, events[0]), events[1..], key); }
  }

  /** In every run a code is handed out at most once for each create and each late approval. */
  lemma TakesAreCreatesOrLate(events: seq<Event>, key: string)
    requires PossibleRun(START, events)
    ensures |Taken(START, events, key)| <= Creates(events, key) + LateApprovals(START, events, key)
  {
    TakesNeverExceedBirths(events, key);
    BirthsAreCreatesOrLate(START, events, key);
  }

  /** One create, with no approval after the session is gone, gives at most one approval. */
  lemma OneCreateOneApproval(events: seq<Event>, key: string)
    requires PossibleRun(START, events) && ApprovalsInTime(START, events, key)
    ensures |Taken(START, events, key)| <= Creates(events, key)
  {
    TakesAreCreatesOrLate(events, key);
    InTimeIsNeverLate(START, events, key);
  }

  // The bound is attained, whatever the numbers.

  /** Approve, take and finish: one round that hands an approval out and removes the key. */
  function Round(key: string, sealed: Sealed): seq<Event> {
    [Approve(key, sealed)] + ([Take(1, key, sealed.secret)] + [Finish(1)])
  }

  function AfterRound(s: State, key: string, sealed: Sealed): State {
    s.(store := s.store - {key}, written := s.written + {(key, sealed)})
  }

  lemma Stepwise(s: State, e: Event, events: seq<Event>, key: string)
    requires Enabled(s, e) && PossibleRun(Next(s, e), events)
    ensures PossibleRun(s, [e] + events)
    ensures |Taken(s, [e] + events, key)| == (if HandedOut(s, e, key).Some? then 1 else 0) + |Taken(Next(s, e), events, key)|
    ensures Creates([e] + events, key) == (if e.Create? && e.key == key then 1 else 0) + Creates(events, key)
    ensures LateApprovals(s, [e] + events, key) ==
            (if e.Approve? && e.key == key && key !in s.store then 1 else 0) + LateApprovals(Next(s, e), events, key)
  {
    assert ([e] + events)[1..] == events;
  }

  lemma RoundEnds(s: State, key: string, sealed: Sealed)
    requires 1 !in s.calls
    ensures var s1 := Next(s, Approve(key, sealed));
            && Collectable(s1.store, key) == Some(sealed)
            && var s2 := Next(s1, Take(1, key, sealed.secret));
            && Enabled(s1, Take(1, key, sealed.secret)) && Enabled(s2, Finish(1))
            && HandedOut(s2, Finish(1), key) == Some(sealed)
            && Next(s2, Finish(1)) == AfterRound(s, key, sealed)
  {
    var s1 := Next(s, Approve(key, sealed));
    var s2 := Next(s1, Take(1, key, sealed.secret));
    assert s2.calls == s.calls[1 := Deleting(key, sealed, sealed.secret)];
    assert s2.calls - {1} == s.calls;
    assert s1.store - {key} == s.store - {key};
  }

  lemma RoundHandsOut(s: State, key: string, sealed: Sealed, rest: seq<Event>)
    requires 1 !in s.calls && PossibleRun(AfterRound(s, key, sealed), rest)
    ensures var run := Round(key, sealed) + rest;
            && PossibleRun(s, run)
            && |Taken(s, run, key)| == 1 + |Taken(AfterRound(s, key, sealed), rest, key)|
            && Creates(run, key) == Creates(rest, key)
            && LateApprovals(s, run, key) ==
               (if key in s.store then 0 else 1) + LateApprovals(AfterRound(s, key, sealed), rest, key)
  {
    var e1, e2, e3 := Approve(key, sealed), Take(1, key, sealed.secret), Finish(1);
    assert Round(key, sealed) + rest == [e1] + ([e2] + ([e3] + rest));
    hide PossibleRun, Taken, Creates, LateApprovals, AfterRound, Next, Collectable, Round, Enabled, HandedOut;
    RoundEnds(s, key, sealed);
    NothingHandedOut(s, key, sealed);
    var s1 := Next(s, e1);
    var s2 := Next(s1, e2);
    Stepwise(s2, e3, rest, key);
    Stepwise(s1, e2, [e3] + rest, key);
    Stepwise(s, e1, [e2] + ([e3] + rest), key);
  }

  lemma NothingHandedOut(s: State, key: string, sealed: Sealed)
    ensures Enabled(s, Approve(key, sealed)) && HandedOut(s, Approve(key, sealed), key).None?
    ensures forall call, t: State | call !in t.calls :: HandedOut(t, Take(call, key, sealed.secret), key).None?
  {
  }

  /** A session is created and gets its expiry. */
  lemma CreateMakesKey(s: State, key: string, expiresAt: int, rest: seq<Event>)
    requires 0 !in s.calls && key !in s.store
    ensures var created := s.(store := s.store[key := Hash(Row(Pending, Some(expiresAt), None), Some(expiresAt))]);
            var run := [Create(0, key, expiresAt)] + ([Finish(0)] + rest);
            PossibleRun(created, rest) ==>
              && PossibleRun(s, run)
              && |Taken(s, run, key)| == |Taken(created, rest, key)|
              && Creates(run, key) == 1 + Creates(rest, key)
              && LateApprovals(s, run, key) == LateApprovals(created, rest, key)
  {
    var created := s.(store := s.store[key := Hash(Row(Pending, Some(expiresAt), None), Some(expiresAt))]);
    var s1 := Next(s, Create(0, key, expiresAt));
    assert s1.calls - {0} == s.calls;
    assert Next(s1, Finish(0)) == created;
    assert HandedOut(s, Create(0, key, expiresAt), key).None? && HandedOut(s1, Finish(0), key).None?;
    if PossibleRun(created, rest) {
      hide PossibleRun, Taken, Creates, LateApprovals, Next, HandedOut;
      Stepwise(s1, Finish(0), rest, key);
      Stepwise(s, Create(0, key, expiresAt), [Finish(0)] + rest, key);
    }
  }

  /** So many created sessions approved and collected, and then so many approvals written late and collected. */
  function Collecting(key: string, sealed: Sealed, expiresAt: int, creates: nat, late: nat): seq<Event>
    decreases creates + late
  {
    if creates > 0 then
      [Create(0, key, expiresAt)] + ([Finish(0)] + (Round(key, sealed) + Collecting(key, sealed, expiresAt, creates - 1, late)))
    else if late > 0 then Round(key, sealed) + Collecting(key, sealed, expiresAt, 0, late - 1)
    else []
  }

  lemma {:induction false} CollectingHandsOut(s: State, key: string, sealed: Sealed, expiresAt: int, creates: nat, late: nat)
    requires 0 !in s.calls && 1 !in s.calls && key !in s.store
    ensures var run := Collecting(key, sealed, expiresAt, creates, late);
            && PossibleRun(s, run) && |Taken(s, run, key)| == creates + late
            && Creates(run, key) == creates && LateApprovals(s, run, key) == late
    decreases creates + late
  {
    hide PossibleRun, Taken, Creates, LateApprovals, Round;
    if creates > 0 {
      var created := s.(store := s.store[key := Hash(Row(Pending, Some(expiresAt), None), Some(expiresAt))]);
      var rest := Collecting(key, sealed, expiresAt, creates - 1, late);
      CollectingHandsOut(AfterRound(created, key, sealed), key, sealed, expiresAt, creates - 1, late);
      RoundHandsOut(created, key, sealed, rest);
      CreateMakesKey(s, key, expiresAt, Round(key, sealed) + rest);
    } else if late > 0 {
      CollectingHandsOut(AfterRound(s, key, sealed), key, sealed, expiresAt, 0, late - 1);
      RoundHandsOut(s, key, sealed, Collecting(key, sealed, expiresAt, 0, late - 1));
    } else {
      NothingHappens(s, key);
    }
  }

  lemma NothingHappens(s: State, key: string)
    ensures PossibleRun(s, []) && Taken(s, [], key) == [] && Creates([], key) == 0 && LateApprovals(s, [], key) == 0
  {
  }

  /** The bound is exact: with any number of creates and of late approvals there is a run that hands out one
      approval for each of them. */
  lemma EveryLateApprovalCanBeCollected(key: string, sealed: Sealed, expiresAt: int, creates: nat, late: nat)
    ensures var run := Collecting(key, sealed, expiresAt, creates, late);
            && PossibleRun(START, run) && Creates(run, key) == creates && LateApprovals(START, run, key) == late
            && |Taken(START, run, key)| == creates + late
  {
    CollectingHandsOut(START, key, sealed, expiresAt, creates, late);
  }

  // ---------------------------------------------------------------- runs in memory

  function MemoryTaken(memory: Memory, events: seq<MemoryEvent>, key: string): nat
    decreases |events|
  {
    if events == [] then 0
    else
      (if events[0] == MemTake(key) && MemoryCollectable(memory, key).Some? then 1 else 0) +
      MemoryTaken(MemoryNext(memory, events[0]), events[1..], key)
  }

  function MemoryCreates(events: seq<MemoryEvent>, key: string): nat {
    if events == [] then 0
    else (if events[0].MemCreate? && events[0].key == key then 1 else 0) + MemoryCreates(events[1..], key)
  }

  /** In memory an approval never brings a session back: whatever happens, a code is handed out at most once
      for each create. */
  lemma {:induction false} MemoryTakesNeverExceedCreates(memory: Memory, events: seq<MemoryEvent>, key: string)
    ensures MemoryTaken(memory, events, key) <= MemoryCreates(events, key) + (if key in memory then 1 else 0)
    decreases |events|
  {
    if events != [] {
      MemoryTakesNeverExceedCreates(MemoryNext(memory, events[0]), events[1..], key);
    }
  }

  /** Create, approve and take, over and over. */
  function MemoryRounds(key: string, sealed: Sealed, at: int, n: nat): seq<MemoryEvent> {
    if n == 0 then []
    else [MemCreate(key, at, at)] + ([MemApprove(key, sealed)] + ([MemTake(key)] + MemoryRounds(key, sealed, at, n - 1)))
  }

  lemma MemoryStep(memory: Memory, e: MemoryEvent, events: seq<MemoryEvent>, key: string)
    ensures MemoryTaken(memory, [e] + events, key) ==
            (if e == MemTake(key) && MemoryCollectable(memory, key).Some? then 1 else 0) +
            MemoryTaken(MemoryNext(memory, e), events, key)
    ensures MemoryCreates([e] + events, key) == (if e.MemCreate? && e.key == key then 1 else 0) + MemoryCreates(events, key)
  {
    assert ([e] + events)[1..] == events;
  }

  /** The bound is exact: any number of creates can give as many approvals. */
  lemma {:induction false} MemoryCreatesCanAllBeCollected(memory: Memory, key: string, sealed: Sealed, at: int, n: nat)
    ensures MemoryCreates(MemoryRounds(key, sealed, at, n), key) == n == MemoryTaken(memory, MemoryRounds(key, sealed, at, n), key)
  {
    if n > 0 {
      var rest := MemoryRounds(key, sealed, at, n - 1);
      var created := MemoryNext(memory, MemCreate(key, at, at));
      var approved := MemoryNext(created, MemApprove(key, sealed));
      MemorySessionsLiveUntilTheirTime(memory, key, at, at, sealed);
      MemoryCreatesCanAllBeCollected(MemoryNext(approved, MemTake(key)), key, sealed, at, n - 1);
      hide MemoryTaken, MemoryCreates, MemoryNext, MemoryCollectable;
      MemoryStep(approved, MemTake(key), rest, key);
      MemoryStep(created, MemApprove(key, sealed), [MemTake(key)] + rest, key);
      MemoryStep(memory, MemCreate(key, at, at), [MemApprove(key, sealed)] + ([MemTake(key)] + rest), key);
    }
  }
}
