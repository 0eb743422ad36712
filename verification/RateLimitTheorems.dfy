/** What the limiter keeps over every interleaving of its steps. */
module RateLimitTheorems {
  import opened Prelude
  import opened RateLimit

  // ----- generations: what the history says about one identifier's counter

  /** A counter's life: when its first and last attempts were, and how many attempts it has counted. */
  datatype Generation = Generation(birth: int, n: nat, last: int)

  function Gen(log: seq<Event>, key: Key): Option<Generation> {
    if log == [] then None
    else
      var before, e := Gen(log[..|log| - 1], key), log[|log| - 1];
      if e.key != key then before
      else match e
        case Cleared(_, _) => None
        case Attempt(_, at, count) =>
          if count == 1 || before.None? then Some(Generation(at, 1, at))
          else Some(Generation(before.value.birth, before.value.n + 1, at))
  }

  /**
   Counts go up by one; they start again only after a clear, or more than a window after the birth and
   later than the last attempt.
   */
  ghost predicate Legal(log: seq<Event>, key: Key) {
    log == [] ||
    var before, e := log[..|log| - 1], log[|log| - 1];
    && Legal(before, key)
    && (e.key == key && e.Attempt? ==>
          match Gen(before, key)
          case None => e.count == 1
          case Some(g) => e.count == g.n + 1 || (e.count == 1 && e.at > g.birth + WINDOW && e.at > g.last))
  }

  ghost predicate InOrder(log: seq<Event>, now: int) {
    && (forall i, j :: 0 <= i < j < |log| ==> log[i].at <= log[j].at)
    && (forall i :: 0 <= i < |log| ==> log[i].at <= now)
  }

  // ----- the invariant

  ghost predicate CounterMatches(s: State, key: Key) {
    match Gen(s.log, key)
    case None => key !in s.store
    case Some(g) =>
      && key in s.store && s.store[key].count == g.n >= 1
      && (s.store[key].deadline.Some? ==>
            && g.birth + WINDOW <= s.store[key].deadline.value <= s.now + WINDOW
            && g.last <= s.store[key].deadline.value)
  }

  ghost predicate Inv(s: State) {
    && InOrder(s.log, s.now)
    && (forall key :: Legal(s.log, key))
    && (forall key :: CounterMatches(s, key))
  }

  lemma GenAppend(log: seq<Event>, e: Event, key: Key)
    ensures (log + [e])[..|log + [e]| - 1] == log
    ensures e.key != key ==> Gen(log + [e], key) == Gen(log, key)
  {
    assert (log + [e])[..|log|] == log;
  }

  lemma StepKeepsInOrder(s: State, op: Op)
    requires Enabled(s, op) && InOrder(s.log, s.now)
    ensures InOrder(Step(s, op).log, Step(s, op).now)
  {
  }

  lemma StepKeepsCounter(s: State, op: Op, key: Key)
    requires Enabled(s, op) && Inv(s)
    ensures Legal(Step(s, op).log, key) && CounterMatches(Step(s, op), key)
  {
    assert Legal(s.log, key) && CounterMatches(s, key);
    match op
    case Arrive(id, k) => GenAppend(s.log, Attempt(k, s.now, CountAfterIncr(s.store, k, s.now)), key);
    case Clear(k) => GenAppend(s.log, Cleared(k, s.now), key);
    case SendExpire(id) => BirthBefore(s.log, s.now, key);
    case Tick(ms) =>
    case Crash(id) =>
  }

  lemma {:induction false} BirthBefore(log: seq<Event>, now: int, key: Key)
    requires InOrder(log, now)
    ensures Gen(log, key).Some? ==> Gen(log, key).value.birth <= Gen(log, key).value.last <= now
    ensures Gen(log, key).Some? ==> Gen(log, key).value.n >= 1
  {
    if log != [] { BirthBefore(log[..|log| - 1], log[|log| - 1].at, key); }
  }

  lemma StepKeepsInv(s: State, op: Op)
    requires Enabled(s, op) && Inv(s)
    ensures Inv(Step(s, op))
  {
    StepKeepsInOrder(s, op);
    forall key ensures Legal(Step(s, op).log, key) && CounterMatches(Step(s, op), key) {
      StepKeepsCounter(s, op, key);
    }
  }

  /** Every reachable state, after any interleaving and any crashes. */
  lemma {:induction false} RunKeepsInv(s: State, ops: seq<Op>)
    requires CanRun(s, ops) && Inv(s)
    ensures Inv(After(s, ops))
    decreases |ops|
  {
    if ops != [] {
      StepKeepsInv(s, ops[0]);
      RunKeepsInv(Step(s, ops[0]), ops[1..]);
    }
  }

  lemma StartInv(now: int)
    ensures Inv(Start(now))
  {
  }

  // ----- how many attempts an interval can let through

  predicate Within(e: Event, key: Key, a: int, b: int) {
    e.key == key && a <= e.at < b
  }

  /** The attempts for `key` in [a, b) that are let through. */
  function Allowed(log: seq<Event>, key: Key, a: int, b: int): nat {
    if log == [] then 0
    else
      var e := log[|log| - 1];
      Allowed(log[..|log| - 1], key, a, b)
      + if e.Attempt? && Within(e, key, a, b) && LetThrough(e.count) then 1 else 0
  }

  /** The counters for `key` that start in [a, b). */
  function Births(log: seq<Event>, key: Key, a: int, b: int): nat {
    if log == [] then 0
    else
      var e := log[|log| - 1];
      Births(log[..|log| - 1], key, a, b)
      + if e.Attempt? && Within(e, key, a, b) && e.count == 1 then 1 else 0
  }

  function Clears(log: seq<Event>, key: Key, a: int, b: int): nat {
    if log == [] then 0
    else
      var e := log[|log| - 1];
      Clears(log[..|log| - 1], key, a, b) + if e.Cleared? && Within(e, key, a, b) then 1 else 0
  }

  lemma {:induction false} NothingBefore(log: seq<Event>, key: Key, a: int, b: int)
    requires InOrder(log, a - 1)
    ensures Allowed(log, key, a, b) == Births(log, key, a, b) == Clears(log, key, a, b) == 0
    ensures Leftover(log, key, a, b) == 0
  {
    if log != [] { NothingBefore(log[..|log| - 1], key, a, b); }
  }

  function AtMostMax(n: nat): nat {
    if n <= MAX_ATTEMPTS then n else MAX_ATTEMPTS
  }

  /** The attempts of [a, b) that are let through by a counter that started before a. */
  function Leftover(log: seq<Event>, key: Key, a: int, b: int): nat {
    if log == [] then 0
    else
      var before, e := log[..|log| - 1], log[|log| - 1];
      Leftover(before, key, a, b)
      + if e.Attempt? && Within(e, key, a, b) && LetThrough(e.count) && e.count != 1
           && Gen(before, key).Some? && Gen(before, key).value.birth < a then 1 else 0
  }

  /** A counter lets five attempts through; one that started before the interval has used up its first. */
  ghost predicate AllowedBounded(log: seq<Event>, key: Key, a: int, b: int) {
    var allowed, births, leftover := Allowed(log, key, a, b), Births(log, key, a, b), Leftover(log, key, a, b);
    && leftover <= 4
    && match Gen(log, key)
       case None => allowed <= 5 * births + leftover
       case Some(g) =>
         if g.birth >= a then births >= 1 && allowed <= 5 * (births - 1) + leftover + AtMostMax(g.n)
         else births == 0 && g.n >= 1 && allowed <= leftover <= AtMostMax(g.n) - 1
  }

  lemma {:induction false} AllowedByBirths(log: seq<Event>, key: Key, a: int, b: int, now: int)
    requires Legal(log, key) && InOrder(log, now) && now < b
    ensures AllowedBounded(log, key, a, b)
  {
    if log != [] {
      var before, e := log[..|log| - 1], log[|log| - 1];
      AllowedByBirths(before, key, a, b, e.at);
      BirthBefore(before, e.at, key);
      BirthBefore(log, e.at, key);
      if e.at < a { NothingBefore(log, key, a, b); }
    }
  }

  /** How far apart two counters of one identifier start at least, without a clear in between. */
  const PERIOD := WINDOW + 1

  /**
   Counters of one identifier start a period apart, unless a clear comes in between. After an attempt
   of a counter from before the interval the first one starts no sooner than a millisecond later.
   */
  ghost predicate BirthsBounded(log: seq<Event>, key: Key, a: int, b: int, now: int) {
    var births, clears := Births(log, key, a, b), Clears(log, key, a, b);
    var late := if Leftover(log, key, a, b) > 0 then 1 else 0;
    match Gen(log, key)
    case None =>
      && (births >= 1 ==> PERIOD * (births - clears) <= now - a - late)
      && (births == 0 && late > 0 ==> clears >= 1)
    case Some(g) =>
      if g.birth >= a then births >= 1 && PERIOD * (births - 1 - clears) <= g.birth - a - late
      else births == 0 && (late > 0 ==> g.last >= a)
  }

  lemma {:induction false} BirthsByTime(log: seq<Event>, key: Key, a: int, b: int, now: int)
    requires Legal(log, key) && InOrder(log, now) && now < b
    ensures BirthsBounded(log, key, a, b, now)
  {
    if log != [] {
      var before, e := log[..|log| - 1], log[|log| - 1];
      BirthsByTime(before, key, a, b, e.at);
      BirthBefore(before, e.at, key);
      if e.at < a { NothingBefore(log, key, a, b); }
    }
  }

  function CeilDiv(x: nat, y: nat): nat
    requires y > 0
  {
    (x + y - 1) / y
  }

  /** The most attempts that can be let through in `len` milliseconds with `c` clears. */
  function MaxAllowed(len: nat, c: nat): nat {
    5 * (CeilDiv(len, PERIOD) + c) + if len % PERIOD == 1 then 0 else 4
  }

  lemma CountersFit(len: nat, births: nat, clears: nat, late: nat)
    requires len > 0 && late <= 1 && PERIOD * (births - 1 - clears) <= len - 1 - late
    ensures births <= CeilDiv(len, PERIOD) + clears
    ensures late == 1 && len % PERIOD == 1 ==> births <= CeilDiv(len, PERIOD) + clears - 1
  {
  }

  lemma {:induction false} IntervalBound(log: seq<Event>, key: Key, a: int, len: nat, now: int)
    requires Legal(log, key) && InOrder(log, now) && len > 0
    ensures Allowed(log, key, a, a + len) <= MaxAllowed(len, Clears(log, key, a, a + len))
  {
    var b := a + len;
    if log == [] {
    } else if log[|log| - 1].at >= b {
      IntervalBound(log[..|log| - 1], key, a, len, now);
    } else {
      var last := log[|log| - 1].at;
      AllowedByBirths(log, key, a, b, last);
      BirthsByTime(log, key, a, b, last);
      BirthBefore(log, last, key);
      var late := if Leftover(log, key, a, b) > 0 then 1 else 0;
      if Births(log, key, a, b) >= 1 {
        CountersFit(len, Births(log, key, a, b), Clears(log, key, a, b), late);
      }
    }
  }

  /**
   Over every run, whatever the interleaving, whatever crashes: no more attempts of one identifier are
   let through in an interval of `len` milliseconds with c clears than 5 * (ceil(len / P) + c) + 4, and
   4 fewer if `len` leaves remainder 1, where P is fifteen minutes and one millisecond.
   */
  lemma RateBound(now: int, ops: seq<Op>, key: Key, a: int, len: nat)
    requires CanRun(Start(now), ops) && len > 0
    ensures var log := After(Start(now), ops).log;
            Allowed(log, key, a, a + len)
            <= 5 * ((len + 15 * 60 * 1000) / (15 * 60 * 1000 + 1) + Clears(log, key, a, a + len))
               + if len % (15 * 60 * 1000 + 1) == 1 then 0 else 4
  {
    StartInv(now);
    RunKeepsInv(Start(now), ops);
    var s := After(Start(now), ops);
    assert Legal(s.log, key);
    IntervalBound(s.log, key, a, len, s.now);
  }

  /** In any fifteen minutes without a clear: nine. */
  lemma NineInAWindow(now: int, ops: seq<Op>, key: Key, a: int)
    requires CanRun(Start(now), ops)
    requires Clears(After(Start(now), ops).log, key, a, a + 15 * 60 * 1000) == 0
    ensures Allowed(After(Start(now), ops).log, key, a, a + 15 * 60 * 1000) <= 9
  {
    RateBound(now, ops, key, a, 15 * 60 * 1000);
  }

  // ----- the bound is met

  function Arrivals(first: CallId, n: nat, key: Key): seq<Op>
    decreases n
  {
    if n == 0 then [] else [Arrive(first, key)] + Arrivals(first + 1, n - 1, key)
  }

  ghost predicate FreeFrom(s: State, first: CallId) {
    forall id :: id in s.calls ==> id < first
  }

  /** In [a, b) the run from `s` to `s'` let `n` attempts through and cleared the counter `c` times. */
  ghost predicate Adds(s: State, s': State, key: Key, a: int, b: int, n: nat, c: nat) {
    && Allowed(s'.log, key, a, b) == Allowed(s.log, key, a, b) + n
    && Clears(s'.log, key, a, b) == Clears(s.log, key, a, b) + c
  }

  /** A burst on a live counter whose deadline is set. */
  lemma {:induction false} Burst(s: State, first: CallId, n: nat, key: Key, a: int, b: int)
    requires FreeFrom(s, first) && Live(s.store, key, s.now) && s.store[key].count >= 1
    requires a <= s.now < b && s.store[key].count + n <= MAX_ATTEMPTS
    ensures CanRun(s, Arrivals(first, n, key))
    ensures var s' := After(s, Arrivals(first, n, key));
            && FreeFrom(s', first + n) && s'.now == s.now && Adds(s, s', key, a, b, n, 0)
            && key in s'.store && s'.store[key] == Counter(s.store[key].count + n, s.store[key].deadline)
    decreases n
  {
    if n > 0 {
      var s1 := Step(s, Arrive(first, key));
      GenAppend(s.log, Attempt(key, s.now, s.store[key].count + 1), key);
      Burst(s1, first + 1, n - 1, key, a, b);
      assert Arrivals(first, n, key)[1..] == Arrivals(first + 1, n - 1, key);
    }
  }

  lemma {:induction false} RunConcat(s: State, xs: seq<Op>, ys: seq<Op>)
    requires CanRun(s, xs) && CanRun(After(s, xs), ys)
    ensures CanRun(s, xs + ys) && After(s, xs + ys) == After(After(s, xs), ys)
    decreases |xs|
  {
    if xs == [] {
      assert xs + ys == ys;
    } else {
      assert (xs + ys)[1..] == xs[1..] + ys;
      RunConcat(Step(s, xs[0]), xs[1..], ys);
    }
  }

  lemma OneStep(s: State, op: Op)
    requires Enabled(s, op)
    ensures CanRun(s, [op]) && After(s, [op]) == Step(s, op)
  {
    assert [op][1..] == [];
  }

  /** A first attempt with its EXPIRE, some waiting, and then the other four. */
  function Round(first: CallId, wait: nat, key: Key): seq<Op> {
    [Arrive(first, key)] + [SendExpire(first)] + [Tick(wait)] + Arrivals(first + 1, 4, key)
  }

  lemma OpenRun(s: State, first: CallId, wait: nat, key: Key, a: int, b: int)
    requires FreeFrom(s, first) && !Live(s.store, key, s.now)
    ensures var ops := [Arrive(first, key)] + [SendExpire(first)] + [Tick(wait)];
            CanRun(s, ops) &&
            var s' := After(s, ops);
            && FreeFrom(s', first + 1) && s'.now == s.now + wait
            && key in s'.store && s'.store[key] == Counter(1, Some(s.now + WINDOW))
            && Adds(s, s', key, a, b, if a <= s.now < b then 1 else 0, 0)
  {
    var s1 := Step(s, Arrive(first, key));
    var s2 := Step(s1, SendExpire(first));
    OneStep(s, Arrive(first, key));
    OneStep(s1, SendExpire(first));
    OneStep(s2, Tick(wait));
    RunConcat(s, [Arrive(first, key)], [SendExpire(first)]);
    RunConcat(s, [Arrive(first, key)] + [SendExpire(first)], [Tick(wait)]);
    GenAppend(s.log, Attempt(key, s.now, 1), key);
  }

  lemma RoundRun(s: State, first: CallId, wait: nat, key: Key, a: int, b: int)
    requires FreeFrom(s, first) && !Live(s.store, key, s.now)
    requires a <= s.now + wait < b && wait <= WINDOW
    ensures CanRun(s, Round(first, wait, key))
    ensures var s' := After(s, Round(first, wait, key));
            && FreeFrom(s', first + 5) && s'.now == s.now + wait
            && key in s'.store && s'.store[key] == Counter(5, Some(s.now + WINDOW))
            && Adds(s, s', key, a, b, if a <= s.now < b then 5 else 4, 0)
  {
    OpenRun(s, first, wait, key, a, b);
    var open := [Arrive(first, key)] + [SendExpire(first)] + [Tick(wait)];
    Burst(After(s, open), first + 1, 4, key, a, b);
    RunConcat(s, open, Arrivals(first + 1, 4, key));
  }

  /** Rounds of five at once: first one after every clear, then one a period. */
  function Rounds(first: CallId, clears: nat, periods: nat, key: Key): seq<Op>
    decreases clears + periods
  {
    Round(first, 0, key)
    + if clears > 0 then [Clear(key)] + Rounds(first + 5, clears - 1, periods, key)
      else if periods > 0 then [Tick(PERIOD)] + Rounds(first + 5, 0, periods - 1, key)
      else []
  }

  lemma {:induction false} RoundsRun(
      s: State, first: CallId, clears: nat, periods: nat, key: Key, a: int, b: int)
    requires FreeFrom(s, first) && !Live(s.store, key, s.now)
    requires a <= s.now && s.now + PERIOD * periods < b
    ensures CanRun(s, Rounds(first, clears, periods, key))
    ensures Adds(s, After(s, Rounds(first, clears, periods, key)), key, a, b, 5 * (1 + clears + periods), clears)
    decreases clears + periods
  {
    RoundRun(s, first, 0, key, a, b);
    var round, s1 := Round(first, 0, key), After(s, Round(first, 0, key));
    var rounds := Rounds(first, clears, periods, key);
    if clears > 0 {
      var s2, rest := Step(s1, Clear(key)), Rounds(first + 5, clears - 1, periods, key);
      assert rounds == round + ([Clear(key)] + rest);
      RoundsRun(s2, first + 5, clears - 1, periods, key, a, b);
      NextRound(s, s1, round, Clear(key), rest);
      ClearAdds(s1, key, a, b);
    } else if periods > 0 {
      var s2, rest := Step(s1, Tick(PERIOD)), Rounds(first + 5, 0, periods - 1, key);
      assert rounds == round + ([Tick(PERIOD)] + rest);
      RoundsRun(s2, first + 5, 0, periods - 1, key, a, b);
      NextRound(s, s1, round, Tick(PERIOD), rest);
    } else {
      assert rounds == round;
    }
  }

  lemma ClearAdds(s: State, key: Key, a: int, b: int)
    requires a <= s.now < b
    ensures Adds(s, Step(s, Clear(key)), key, a, b, 0, 1)
  {
    GenAppend(s.log, Cleared(key, s.now), key);
  }

  lemma NextRound(s: State, s1: State, round: seq<Op>, op: Op, rest: seq<Op>)
    requires CanRun(s, round) && s1 == After(s, round) && Enabled(s1, op) && CanRun(Step(s1, op), rest)
    ensures CanRun(s, round + ([op] + rest))
    ensures After(s, round + ([op] + rest)) == After(Step(s1, op), rest)
  {
    assert ([op] + rest)[1..] == rest;
    RunConcat(s, round, [op] + rest);
  }

  lemma PeriodsFit(len: nat)
    requires len > 0
    ensures CeilDiv(len, PERIOD) >= 1
    ensures PERIOD * (CeilDiv(len, PERIOD) - 1) <= len - (if len % PERIOD == 1 then 1 else 2)
  {
  }

  /** A round of which four attempts fall into the interval, and rounds from a millisecond later on. */
  lemma LateRounds(clears: nat, periods: nat, key: Key, b: int) returns (ops: seq<Op>)
    requires WINDOW + 1 + PERIOD * periods < b
    ensures CanRun(Start(0), ops)
    ensures Adds(Start(0), After(Start(0), ops), key, WINDOW, b, 4 + 5 * (1 + clears + periods), clears)
  {
    var round, rounds := Round(0, WINDOW, key), Rounds(5, clears, periods, key);
    ops := round + ([Tick(1)] + rounds);
    RoundRun(Start(0), 0, WINDOW, key, WINDOW, b);
    var s1 := After(Start(0), round);
    RoundsRun(Step(s1, Tick(1)), 5, clears, periods, key, WINDOW, b);
    NextRound(Start(0), s1, round, Tick(1), rounds);
  }

  /** The bound is reached, for every length and every number of clears. */
  lemma BoundIsMet(len: nat, c: nat, key: Key) returns (ops: seq<Op>, a: int)
    requires len > 0
    ensures CanRun(Start(0), ops)
    ensures var log := After(Start(0), ops).log;
            && Clears(log, key, a, a + len) == c
            && Allowed(log, key, a, a + len)
               == 5 * ((len + 15 * 60 * 1000) / (15 * 60 * 1000 + 1) + c)
                  + if len % (15 * 60 * 1000 + 1) == 1 then 0 else 4
  {
    var periods := CeilDiv(len, PERIOD) - 1;
    PeriodsFit(len);
    if len % PERIOD == 1 {
      a, ops := 0, Rounds(0, c, periods, key);
      RoundsRun(Start(0), 0, c, periods, key, a, a + len);
    } else {
      a := WINDOW;
      ops := LateRounds(c, periods, key, a + len);
    }
  }

  // ----- a refusal is earned

  /** How many attempts for `key` a stretch of the history lets through, and whether it has a clear. */
  function AllowedIn(log: seq<Event>, key: Key): nat {
    if log == [] then 0
    else
      var e := log[|log| - 1];
      AllowedIn(log[..|log| - 1], key) + if e.Attempt? && e.key == key && LetThrough(e.count) then 1 else 0
  }

  ghost predicate NoClear(log: seq<Event>, key: Key) {
    forall i :: 0 <= i < |log| && log[i].Cleared? ==> log[i].key != key
  }

  /** A counter's count is the number of attempts since its first one, with no clear in between. */
  lemma {:induction false} GenMeans(log: seq<Event>, key: Key) returns (j: nat)
    requires Legal(log, key) && Gen(log, key).Some?
    ensures j < |log| && log[j] == Attempt(key, Gen(log, key).value.birth, 1)
    ensures NoClear(log[j..], key)
    ensures AllowedIn(log[j..], key) == AtMostMax(Gen(log, key).value.n)
    ensures Gen(log, key).value.n >= 1
  {
    var k := |log| - 1;
    var before, e := log[..k], log[k];
    if e.key == key && e.count == 1 {
      j := k;
      assert log[j..] == [e] && [e][..0] == [];
    } else {
      j := GenMeans(before, key);
      assert log[j..] == before[j..] + [e];
      assert log[j..][..|log[j..]| - 1] == before[j..];
    }
  }

  /** Who is refused has had five attempts let through since the counter started, and no clear since. */
  lemma RefusedAfterFive(now: int, ops: seq<Op>, i: nat) returns (j: nat)
    requires CanRun(Start(now), ops)
    requires var log := After(Start(now), ops).log;
             i < |log| && log[i].Attempt? && log[i].count > 5
    ensures var log := After(Start(now), ops).log; var key := log[i].key;
            && j < i && log[j] == Attempt(key, log[j].at, 1)
            && NoClear(log[j..i], key) && AllowedIn(log[j..i], key) == 5
  {
    StartInv(now);
    RunKeepsInv(Start(now), ops);
    var log := After(Start(now), ops).log;
    var key := log[i].key;
    LegalPrefix(log, i + 1, key);
    assert log[..i + 1][..i] == log[..i] && log[..i + 1][i] == log[i];
    j := GenMeans(log[..i], key);
    assert log[..i][j..] == log[j..i];
  }

  lemma {:induction false} LegalPrefix(log: seq<Event>, n: nat, key: Key)
    requires Legal(log, key) && n <= |log|
    ensures Legal(log[..n], key)
  {
    if n == |log| {
      assert log[..n] == log;
    } else {
      LegalPrefix(log[..|log| - 1], n, key);
      assert log[..|log| - 1][..n] == log[..n];
    }
  }

  // ----- no counter is stuck, and exactly when one is

  /** A counter without a deadline that no call will give one. */
  ghost predicate Stuck(s: State, key: Key) {
    && key in s.store && s.store[key].deadline.None?
    && forall id :: Owes(s, id) ==> s.calls[id].key != key
  }

  /** The step crashes the last call of `key` that owes an EXPIRE to a counter without a deadline. */
  ghost predicate MakesStuck(s: State, op: Op, key: Key)
    requires Enabled(s, op)
  {
    && op.Crash? && s.calls[op.id].key == key
    && key in s.store && s.store[key].deadline.None?
    && forall id :: Owes(s, id) && id != op.id ==> s.calls[id].key != key
  }

  /** A step of any kind makes a counter stuck exactly when it is that step. */
  lemma StepMakesStuckIff(s: State, op: Op, key: Key)
    requires Enabled(s, op) && !Stuck(s, key)
    ensures Stuck(Step(s, op), key) <==> MakesStuck(s, op, key)
  {
    var s' := Step(s, op);
    if key in s.store && s.store[key].deadline.None? {
      var id :| Owes(s, id) && s.calls[id].key == key;
      assert s'.calls[id].key == key;
      if op.Crash? {
        forall c ensures Owes(s', c) <==> Owes(s, c) && c != op.id { }
      } else if op != SendExpire(id) {
        assert Owes(s', id);
      }
    } else if op.Arrive? && op.key == key {
      assert s'.store[key].deadline.None? ==> Owes(s', op.id);
    }
  }

  /** One crash between the two steps of a first attempt is enough. */
  lemma CrashSticks(s: State, id: CallId, key: Key)
    requires id !in s.calls && !Live(s.store, key, s.now)
    requires forall c :: Owes(s, c) ==> s.calls[c].key != key
    ensures Stuck(Step(Step(s, Arrive(id, key)), Crash(id)), key)
  {
    var s' := Step(Step(s, Arrive(id, key)), Crash(id));
    forall c | Owes(s', c) ensures s'.calls[c].key != key {
      assert c != id && Owes(s, c);
    }
  }

  function ArrivalsOf(ops: seq<Op>, key: Key): nat {
    if ops == [] then 0
    else (if ops[0].Arrive? && ops[0].key == key then 1 else 0) + ArrivalsOf(ops[1..], key)
  }

  /** A stuck counter stays stuck, however much time passes, and counts every attempt until a clear. */
  lemma {:induction false} StuckUntilClear(s: State, ops: seq<Op>, key: Key)
    requires CanRun(s, ops) && Stuck(s, key)
    requires forall i :: 0 <= i < |ops| ==> ops[i] != Clear(key)
    requires s.store[key].count >= 1
    ensures Stuck(After(s, ops), key)
    ensures After(s, ops).store[key].count == s.store[key].count + ArrivalsOf(ops, key)
    decreases |ops|
  {
    if ops != [] {
      var s1 := Step(s, ops[0]);
      forall id | Owes(s1, id) ensures s1.calls[id].key != key {
        if id in s.calls { assert Owes(s, id); }
      }
      if ops[0].SendExpire? { assert Owes(s, ops[0].id); }
      StuckUntilClear(s1, ops[1..], key);
    }
  }

  /** The n-th operation of the run makes `key` stuck. */
  ghost predicate MadeStuckAt(s: State, ops: seq<Op>, n: nat, key: Key)
    requires CanRun(s, ops) && n < |ops|
    decreases n
  {
    if n == 0 then MakesStuck(s, ops[0], key) else MadeStuckAt(Step(s, ops[0]), ops[1..], n - 1, key)
  }

  ghost predicate Unclear(ops: seq<Op>, n: nat, key: Key) {
    forall i :: n <= i < |ops| ==> ops[i] != Clear(key)
  }

  ghost predicate StuckSince(s: State, ops: seq<Op>, n: nat, key: Key)
    requires CanRun(s, ops)
  {
    n < |ops| && MadeStuckAt(s, ops, n, key) && Unclear(ops, n + 1, key)
  }

  lemma StuckSinceTail(s: State, ops: seq<Op>, n: nat, key: Key)
    requires CanRun(s, ops) && ops != []
    ensures StuckSince(s, ops, n + 1, key) <==> StuckSince(Step(s, ops[0]), ops[1..], n, key)
  {
    UnclearTail(ops, n + 1, key);
  }

  lemma UnclearTail(ops: seq<Op>, n: nat, key: Key)
    requires ops != []
    ensures Unclear(ops, n + 1, key) <==> Unclear(ops[1..], n, key)
  {
    if Unclear(ops, n + 1, key) {
      forall i | n <= i < |ops[1..]| ensures ops[1..][i] != Clear(key) {
        assert ops[i + 1] != Clear(key);
      }
    }
    if Unclear(ops[1..], n, key) {
      forall i | n + 1 <= i < |ops| ensures ops[i] != Clear(key) {
        assert ops[1..][i - 1] != Clear(key);
      }
    }
  }

  lemma StuckSinceSplit(s: State, ops: seq<Op>, key: Key)
    requires CanRun(s, ops) && ops != []
    ensures (exists n: nat :: StuckSince(s, ops, n, key)) <==>
            StuckSince(s, ops, 0, key) || exists n: nat :: StuckSince(Step(s, ops[0]), ops[1..], n, key)
  {
    if n: nat :| StuckSince(Step(s, ops[0]), ops[1..], n, key) {
      StuckSinceTail(s, ops, n, key);
    } else if n: nat :| StuckSince(s, ops, n, key) && n > 0 {
      StuckSinceTail(s, ops, n - 1, key);
    }
  }

  /** A run ends stuck exactly when it began so or a step made it so, and no clear came after that. */
  lemma {:induction false} RunStuckIff(s: State, ops: seq<Op>, key: Key)
    requires CanRun(s, ops) && Inv(s)
    ensures Stuck(After(s, ops), key) <==>
            (Stuck(s, key) && Unclear(ops, 0, key)) || exists n: nat :: StuckSince(s, ops, n, key)
    decreases |ops|
  {
    if ops != [] {
      StepKeepsInv(s, ops[0]);
      RunStuckIff(Step(s, ops[0]), ops[1..], key);
      StepStuckIff(s, ops[0], key);
      UnclearTail(ops, 0, key);
      assert Unclear(ops, 0, key) <==> ops[0] != Clear(key) && Unclear(ops, 1, key);
      StuckSinceSplit(s, ops, key);
    }
  }

  lemma StepStuckIff(s: State, op: Op, key: Key)
    requires Enabled(s, op) && Inv(s)
    ensures Stuck(Step(s, op), key) <==> (Stuck(s, key) && op != Clear(key)) || MakesStuck(s, op, key)
  {
    if Stuck(s, key) && op != Clear(key) {
      assert CounterMatches(s, key);
      OneStep(s, op);
      StuckUntilClear(s, [op], key);
    } else if !Stuck(s, key) {
      StepMakesStuckIff(s, op, key);
    }
  }

  /**
   In a reachable state a counter is stuck exactly when some step of the run crashed the last call that
   owed it a deadline, and it has not been cleared since.
   */
  lemma StuckIff(now: int, ops: seq<Op>, key: Key)
    requires CanRun(Start(now), ops)
    ensures Stuck(After(Start(now), ops), key) <==> exists n: nat :: StuckSince(Start(now), ops, n, key)
  {
    StartInv(now);
    RunStuckIff(Start(now), ops, key);
  }

  /** No call of `key` crashes on the way; others may. */
  ghost predicate NoCrashOf(s: State, ops: seq<Op>, key: Key)
    requires CanRun(s, ops)
    decreases |ops|
  {
    ops != [] ==>
      && (ops[0].Crash? ==> s.calls[ops[0].id].key != key)
      && NoCrashOf(Step(s, ops[0]), ops[1..], key)
  }

  /** From any state in which `key` is not stuck, as after a clear, only a crash of its own calls makes it so. */
  lemma {:induction false} NeverStuck(s: State, ops: seq<Op>, key: Key)
    requires CanRun(s, ops) && !Stuck(s, key) && NoCrashOf(s, ops, key)
    ensures !Stuck(After(s, ops), key)
    decreases |ops|
  {
    if ops != [] {
      StepMakesStuckIff(s, ops[0], key);
      NeverStuck(Step(s, ops[0]), ops[1..], key);
    }
  }

  ghost predicate Reachable(s: State) {
    exists now, ops :: CanRun(Start(now), ops) && After(Start(now), ops) == s
  }

  lemma ReachableInv(s: State)
    requires Reachable(s)
    ensures Inv(s)
  {
    var now, ops :| CanRun(Start(now), ops) && After(Start(now), ops) == s;
    StartInv(now);
    RunKeepsInv(Start(now), ops);
  }

  /** Every call of `key` has finished or crashed. */
  ghost predicate Quiet(s: State, key: Key) {
    forall id :: Owes(s, id) ==> s.calls[id].key != key
  }

  /** Once every call of `key` has finished, its counter has a deadline, at most a window away. */
  lemma QuietHasDeadlines(s: State, ops: seq<Op>, key: Key)
    requires Reachable(s) && !Stuck(s, key)
    requires CanRun(s, ops) && NoCrashOf(s, ops, key) && Quiet(After(s, ops), key)
    ensures var s' := After(s, ops);
            key in s'.store ==>
              s'.store[key].deadline.Some? && s'.store[key].deadline.value <= s'.now + 15 * 60 * 1000
  {
    ReachableInv(s);
    RunKeepsInv(s, ops);
    NeverStuck(s, ops, key);
    assert CounterMatches(After(s, ops), key);
  }

  /** Once every call of `key` is over, an attempt more than a window later is the first iff `key` is not stuck. */
  lemma FreeAfterWindowIff(s: State, key: Key, id: CallId, ms: nat)
    requires Reachable(s) && Quiet(s, key) && ms > 15 * 60 * 1000 && id !in s.calls
    ensures Step(Step(s, Tick(ms)), Arrive(id, key)).calls[id].count == 1 <==> !Stuck(s, key)
  {
    ReachableInv(s);
    assert CounterMatches(s, key);
  }

  // ----- identifiers do not disturb one another

  function EventsOf(log: seq<Event>, key: Key): seq<Event> {
    if log == [] then []
    else
      var e := log[|log| - 1];
      EventsOf(log[..|log| - 1], key) + if e.key == key then [e] else []
  }

  /** The part of a state that concerns one identifier. */
  function Only(s: State, key: Key): State {
    State(s.now, OnlyStore(s.store, key), OnlyCalls(s.calls, key), EventsOf(s.log, key))
  }

  /** The step concerns `key`: it is one of its calls', it clears it, or time passes. */
  predicate Concerns(s: State, op: Op, key: Key)
    requires Enabled(s, op)
  {
    match op
    case Arrive(_, k) => k == key
    case Clear(k) => k == key
    case SendExpire(id) => s.calls[id].key == key
    case Crash(id) => s.calls[id].key == key
    case Tick(_) => true
  }

  ghost function OpsOf(s: State, ops: seq<Op>, key: Key): seq<Op>
    requires CanRun(s, ops)
    decreases |ops|
  {
    if ops == [] then []
    else (if Concerns(s, ops[0], key) then [ops[0]] else []) + OpsOf(Step(s, ops[0]), ops[1..], key)
  }

  /** A step of another identifier is invisible to `key`; a step that concerns it can be taken alone. */
  ghost predicate CommutesWithOnly(s: State, op: Op, key: Key)
    requires Enabled(s, op)
  {
    if Concerns(s, op, key)
    then Enabled(Only(s, key), op) && Only(Step(s, op), key) == Step(Only(s, key), op)
    else Only(Step(s, op), key) == Only(s, key)
  }

  function OnlyStore(store: Store, key: Key): Store {
    map k | k in store && k == key :: store[k]
  }

  function OnlyCalls(calls: map<CallId, Call>, key: Key): map<CallId, Call> {
    map id | id in calls && calls[id].key == key :: calls[id]
  }

  lemma IncrOnly(store: Store, k: Key, now: int, key: Key)
    ensures OnlyStore(IncrStore(store, k, now), key)
            == if k == key then IncrStore(OnlyStore(store, key), k, now) else OnlyStore(store, key)
    ensures k == key ==> CountAfterIncr(OnlyStore(store, key), k, now) == CountAfterIncr(store, k, now)
  {
    assert k == key ==> (Live(OnlyStore(store, key), k, now) <==> Live(store, k, now));
  }

  lemma NewCallOnly(calls: map<CallId, Call>, id: CallId, call: Call, key: Key)
    requires id !in calls
    ensures OnlyCalls(calls[id := call], key)
            == if call.key == key then OnlyCalls(calls, key)[id := call] else OnlyCalls(calls, key)
  {
  }

  lemma EventOnly(log: seq<Event>, e: Event, key: Key)
    ensures EventsOf(log + [e], key) == EventsOf(log, key) + if e.key == key then [e] else []
  {
    assert (log + [e])[..|log|] == log;
  }

  lemma ArriveOnly(s: State, id: CallId, k: Key, key: Key)
    requires Enabled(s, Arrive(id, k))
    ensures CommutesWithOnly(s, Arrive(id, k), key)
  {
    var count := CountAfterIncr(s.store, k, s.now);
    IncrOnly(s.store, k, s.now, key);
    NewCallOnly(s.calls, id, Call(k, count, if count == 1 then OwesExpire else Answered), key);
    EventOnly(s.log, Attempt(k, s.now, count), key);
  }

  lemma ClearOnly(s: State, k: Key, key: Key)
    requires Enabled(s, Clear(k))
    ensures CommutesWithOnly(s, Clear(k), key)
  {
    var op := Clear(k);
    var s' := Step(s, op);
    assert s'.log[..|s'.log| - 1] == s.log;
    if Concerns(s, op, key) {
      assert Only(s', key).store == Step(Only(s, key), op).store;
      assert Only(s', key).calls == Step(Only(s, key), op).calls;
    } else {
      assert Only(s', key).store == Only(s, key).store;
      assert Only(s', key).calls == Only(s, key).calls;
    }
  }

  lemma ExpireOnly(s: State, id: CallId, key: Key)
    requires Enabled(s, SendExpire(id))
    ensures CommutesWithOnly(s, SendExpire(id), key)
  {
    var op := SendExpire(id);
    var s' := Step(s, op);
    assert s.calls[id := s'.calls[id]] == s'.calls;
    if Concerns(s, op, key) {
      assert Only(s', key).store == Step(Only(s, key), op).store;
      assert Only(s', key).calls == Step(Only(s, key), op).calls;
    } else {
      assert Only(s', key).store == Only(s, key).store;
      assert Only(s', key).calls == Only(s, key).calls;
    }
  }

  lemma CrashOnly(s: State, id: CallId, key: Key)
    requires Enabled(s, Crash(id))
    ensures CommutesWithOnly(s, Crash(id), key)
  {
    var op := Crash(id);
    var s' := Step(s, op);
    assert s.calls[id := s'.calls[id]] == s'.calls;
    if Concerns(s, op, key) {
      assert Only(s', key).store == Step(Only(s, key), op).store;
      assert Only(s', key).calls == Step(Only(s, key), op).calls;
    } else {
      assert Only(s', key).store == Only(s, key).store;
      assert Only(s', key).calls == Only(s, key).calls;
    }
  }

  lemma StepOnly(s: State, op: Op, key: Key)
    requires Enabled(s, op)
    ensures CommutesWithOnly(s, op, key)
  {
    match op
    case Arrive(id, k) => ArriveOnly(s, id, k, key);
    case Clear(k) => ClearOnly(s, k, key);
    case SendExpire(id) => ExpireOnly(s, id, key);
    case Crash(id) => CrashOnly(s, id, key);
    case Tick(ms) =>
  }

  /** Any run, seen from one identifier, is the run of that identifier's own steps alone. */
  lemma {:induction false} Independence(s: State, ops: seq<Op>, key: Key)
    requires CanRun(s, ops)
    ensures CanRun(Only(s, key), OpsOf(s, ops, key))
    ensures After(Only(s, key), OpsOf(s, ops, key)) == Only(After(s, ops), key)
    decreases |ops|
  {
    if ops != [] {
      var rest := OpsOf(Step(s, ops[0]), ops[1..], key);
      Independence(Step(s, ops[0]), ops[1..], key);
      StepOnly(s, ops[0], key);
      if Concerns(s, ops[0], key) {
        assert ([ops[0]] + rest)[1..] == rest;
      } else {
        assert [] + rest == rest;
      }
    }
  }
}
