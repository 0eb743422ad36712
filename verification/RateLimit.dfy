/**
 The login rate limiter. The counters live in Redis, and every call works on them in separate atomic
 steps (INCR, then perhaps EXPIRE; DEL for a clear), so besides the service itself this module has
 the protocol: the interleaving of those steps over any number of calls, identifiers and crashes.
 */
module RateLimit {
  import opened Prelude

  const MAX_ATTEMPTS := 5

  /** Fifteen minutes, in milliseconds. */
  const WINDOW := 900_000

  type Key = Text

  datatype Counter = Counter(count: nat, deadline: Option<int>)

  type Store = map<Key, Counter>

  // ----- the Redis commands

  /** Redis drops a key once the clock is past its deadline. */
  predicate Live(store: Store, key: Key, now: int) {
    key in store && (store[key].deadline.Some? ==> now <= store[key].deadline.value)
  }

  function CountAfterIncr(store: Store, key: Key, now: int): nat {
    if Live(store, key, now) then store[key].count + 1 else 1
  }

  /** INCR keeps the deadline of a live key; a new key has none. */
  function IncrStore(store: Store, key: Key, now: int): Store {
    store[key := Counter(CountAfterIncr(store, key, now),
                         if Live(store, key, now) then store[key].deadline else None)]
  }

  /** EXPIRE does nothing to a key that is gone. */
  function ExpireStore(store: Store, key: Key, now: int): Store {
    if Live(store, key, now) then store[key := store[key].(deadline := Some(now + WINDOW))] else store
  }

  function DelStore(store: Store, key: Key): Store {
    map k | k in store && k != key :: store[k]
  }

  class Redis {
    var store: Store
    var now: int

    constructor (now: int)
      ensures store == map[] && this.now == now
    {
      store := map[];
      this.now := now;
    }

    method Incr(key: Key) returns (count: nat)
      modifies this`store
      ensures store == IncrStore(old(store), key, now)
      ensures count == if Live(old(store), key, now) then old(store)[key].count + 1 else 1
      ensures store == old(store)[key := Counter(
                count, if Live(old(store), key, now) then old(store)[key].deadline else None)]
    {
      count := CountAfterIncr(store, key, now);
      store := IncrStore(store, key, now);
    }

    method Expire(key: Key)
      modifies this`store
      ensures store == ExpireStore(old(store), key, now)
      ensures Live(old(store), key, now) ==>
                store == old(store)[key := Counter(old(store)[key].count, Some(now + 15 * 60 * 1000))]
      ensures !Live(old(store), key, now) ==> store == old(store)
    {
      store := ExpireStore(store, key, now);
    }

    method Del(key: Key)
      modifies this`store
      ensures store == DelStore(old(store), key)
      ensures key !in store && store.Keys == old(store).Keys - {key}
      ensures forall k :: k in store ==> store[k] == old(store)[k]
    {
      store := DelStore(store, key);
    }
  }

  // ----- the service, one call at a time

  datatype Limited = RateLimited

  /** What a call does to the store when nothing runs between its two steps. */
  function AttemptStore(store: Store, key: Key, now: int): Store {
    var counted := IncrStore(store, key, now);
    if counted[key].count == 1 then ExpireStore(counted, key, now) else counted
  }

  class RateLimitService {
    const redis: Redis

    constructor (redis: Redis)
      ensures this.redis == redis
    {
      this.redis := redis;
    }

    method AssertLoginAllowed(identifier: Key) returns (r: Result<(), Limited>)
      modifies redis`store
      ensures redis.store == AttemptStore(old(redis.store), identifier, redis.now)
      ensures var live := Live(old(redis.store), identifier, redis.now);
              var count := if live then old(redis.store)[identifier].count + 1 else 1;
              var deadline := if count == 1 then Some(redis.now + 15 * 60 * 1000)
                              else old(redis.store)[identifier].deadline;
              && redis.store == old(redis.store)[identifier := Counter(count, deadline)]
              && (r.Ok? <==> count <= 5)
    {
      var count := redis.Incr(identifier);
      if count == 1 {
        redis.Expire(identifier);
      }
      if count > MAX_ATTEMPTS {
        return Err(RateLimited);
      }
      return Ok(());
    }

    method Clear(identifier: Key)
      modifies redis`store
      ensures redis.store == DelStore(old(redis.store), identifier)
    {
      redis.Del(identifier);
    }
  }

  // ----- the protocol

  type CallId = nat

  /** A call that read 1 from INCR still has its EXPIRE to send, unless it crashes first. */
  datatype Phase = OwesExpire | Answered | Crashed

  datatype Call = Call(key: Key, count: nat, phase: Phase)

  /** The history: attempts, dated at their INCR and with the count it returned, and clears. */
  datatype Event = Attempt(key: Key, at: int, count: nat) | Cleared(key: Key, at: int)

  datatype State = State(now: int, store: Store, calls: map<CallId, Call>, log: seq<Event>)

  datatype Op =
    | Arrive(id: CallId, key: Key)
    | SendExpire(id: CallId)
    | Clear(key: Key)
    | Tick(ms: nat)
    | Crash(id: CallId)

  predicate Owes(s: State, id: CallId) {
    id in s.calls && s.calls[id].phase.OwesExpire?
  }

  predicate Enabled(s: State, op: Op) {
    match op
    case Arrive(id, _) => id !in s.calls
    case SendExpire(id) => Owes(s, id)
    case Crash(id) => Owes(s, id)
    case Clear(_) => true
    case Tick(_) => true
  }

  function Step(s: State, op: Op): State
    requires Enabled(s, op)
  {
    match op
    case Arrive(id, key) =>
      var count := CountAfterIncr(s.store, key, s.now);
      var phase := if count == 1 then OwesExpire else Answered;
      s.(store := IncrStore(s.store, key, s.now),
         calls := s.calls[id := Call(key, count, phase)],
         log := s.log + [Attempt(key, s.now, count)])
    case SendExpire(id) =>
      s.(store := ExpireStore(s.store, s.calls[id].key, s.now),
         calls := s.calls[id := s.calls[id].(phase := Answered)])
    case Clear(key) =>
      s.(store := DelStore(s.store, key), log := s.log + [Cleared(key, s.now)])
    case Tick(ms) => s.(now := s.now + ms)
    case Crash(id) => s.(calls := s.calls[id := s.calls[id].(phase := Crashed)])
  }

  /** The call is let through; `count` is all it looks at. */
  predicate LetThrough(count: nat) {
    count <= MAX_ATTEMPTS
  }

  function Start(now: int): State {
    State(now, map[], map[], [])
  }

  ghost predicate CanRun(s: State, ops: seq<Op>)
    decreases |ops|
  {
    ops == [] || (Enabled(s, ops[0]) && CanRun(Step(s, ops[0]), ops[1..]))
  }

  ghost function After(s: State, ops: seq<Op>): State
    requires CanRun(s, ops)
    decreases |ops|
  {
    if ops == [] then s else After(Step(s, ops[0]), ops[1..])
  }
}
