/**
 The session store: a table of rows keyed by the token's hash, whose reads delete expired rows and
 send best-effort updates. As with the rate limiter there is the service, which runs one call at a
 time, and the protocol, in which the separate database steps of any number of calls interleave.
 */
module Sessions {
  import opened Prelude

  /** Twelve hours, in milliseconds. */
  const SESSION_TTL_MS := 43_200_000

  type Token = Text
  type Digest = Text
  type Id = Text

  datatype Row = Row(id: Id, userId: Id, expiresAt: int, lastSeenAt: int)

  /** `tokenHash` and `id` are unique in the table. */
  type Table = map<Digest, Row>

  datatype Context = Context(sessionId: Id, userId: Id)

  datatype CreateError = UniqueViolation

  // ----- the database statements

  predicate IdTaken(rows: Table, id: Id) {
    exists d :: d in rows && rows[d].id == id
  }

  ghost predicate IdsDistinct(rows: Table) {
    forall d, e :: d in rows && e in rows && rows[d].id == rows[e].id ==> d == e
  }

  function NewRow(id: Id, userId: Id, now: int): Row {
    Row(id, userId, now + SESSION_TTL_MS, now)
  }

  function DeleteById(rows: Table, id: Id): Table {
    map d | d in rows && rows[d].id != id :: rows[d]
  }

  function DeleteByHash(rows: Table, digest: Digest): Table {
    map d | d in rows && d != digest :: rows[d]
  }

  /** The update of a row that is gone changes nothing. */
  function TouchById(rows: Table, id: Id, at: int): Table {
    map d | d in rows :: if rows[d].id == id then rows[d].(lastSeenAt := at) else rows[d]
  }

  function Find(rows: Table, digest: Digest): Option<Row> {
    if digest in rows then Some(rows[digest]) else None
  }

  predicate Expired(row: Row, now: int) {
    row.expiresAt <= now
  }

  // ----- the service, one call at a time

  /** What a validation that is not interrupted does to the table. */
  function ValidateTable(rows: Table, digest: Digest, now: int): Table {
    if digest !in rows then rows
    else if Expired(rows[digest], now) then DeleteById(rows, rows[digest].id)
    else TouchById(rows, rows[digest].id, now)
  }

  class SessionService {
    const hash: Token -> Digest
    var rows: Table

    /** The table's unique constraint on ids; that on token hashes is in the type. */
    ghost predicate Valid()
      reads this
    {
      IdsDistinct(rows)
    }

    constructor (hash: Token -> Digest)
      ensures Valid() && this.hash == hash && rows == map[]
    {
      this.hash := hash;
      rows := map[];
    }

    /** The token and the id are freshly drawn by the caller; the database may still refuse them. */
    method Create(userId: Id, token: Token, id: Id, now: int) returns (r: Result<int, CreateError>)
      requires Valid()
      modifies this`rows
      ensures Valid()
      ensures r.Err? <==> hash(token) in old(rows) || IdTaken(old(rows), id)
      ensures r.Err? ==> rows == old(rows)
      ensures r.Ok? ==> r.value == now + 12 * 60 * 60 * 1000
                        && rows == old(rows)[hash(token) := Row(id, userId, r.value, now)]
    {
      var expiresAt := now + SESSION_TTL_MS;
      if hash(token) in rows || IdTaken(rows, id) {
        return Err(UniqueViolation);
      }
      rows := rows[hash(token) := Row(id, userId, expiresAt, now)];
      return Ok(expiresAt);
    }

    method Validate(token: Token, now: int) returns (r: Option<Context>)
      requires Valid()
      modifies this`rows
      ensures Valid() && rows == ValidateTable(old(rows), hash(token), now)
      ensures r.Some? <==> hash(token) in old(rows) && now < old(rows)[hash(token)].expiresAt
      ensures r.None? ==> rows == old(rows) - {hash(token)}
      ensures r.Some? ==>
                var row := old(rows)[hash(token)];
                r.value == Context(row.id, row.userId) && rows == old(rows)[hash(token) := row.(lastSeenAt := now)]
    {
      var session := Find(rows, hash(token));
      if session.None? { return None; }
      if Expired(session.value, now) {
        rows := DeleteById(rows, session.value.id);
        return None;
      }
      rows := TouchById(rows, session.value.id, now);
      return Some(Context(session.value.id, session.value.userId));
    }

    method Revoke(token: Token)
      requires Valid()
      modifies this`rows
      ensures Valid() && rows == old(rows) - {hash(token)}
    {
      rows := DeleteByHash(rows, hash(token));
    }
  }

  // ----- the protocol

  type CallId = nat

  /**
   A validation reads, then looks at the clock and answers; its delete or update reaches the database
   later, or never. The time in a late update is that of the check.
   */
  datatype Phase = HasRead | WillDelete(id: Id) | WillTouch(id: Id) | Done

  datatype Call = Call(
    token: Token, readAt: nat, snapshot: Option<Row>, phase: Phase, checkedAt: int, answer: Option<Context>)

  /** What really happened to sessions, in order: what the specification looks at. */
  datatype Event = Created(token: Token, row: Row) | Revoked(token: Token)

  datatype State = State(now: int, rows: Table, calls: map<CallId, Call>, log: seq<Event>)

  /** A creation's clock was read at some time before its insert. */
  datatype Op =
    | Create(token: Token, id: Id, userId: Id, clock: int)
    | Read(call: CallId, token: Token)
    | Check(call: CallId)
    | SendDelete(call: CallId)
    | SendTouch(call: CallId)
    | Revoke(token: Token)
    | Tick(ms: nat)

  predicate TokenUsed(log: seq<Event>, token: Token) {
    exists i :: 0 <= i < |log| && log[i].Created? && log[i].token == token
  }

  predicate IdUsed(log: seq<Event>, id: Id) {
    exists i :: 0 <= i < |log| && log[i].Created? && log[i].row.id == id
  }

  /** Tokens and ids are random: none is drawn twice. */
  predicate Enabled(s: State, op: Op) {
    match op
    case Create(token, id, _, clock) => clock <= s.now && !TokenUsed(s.log, token) && !IdUsed(s.log, id)
    case Read(call, _) => call !in s.calls
    case Check(call) => call in s.calls && s.calls[call].phase.HasRead?
    case SendDelete(call) => call in s.calls && s.calls[call].phase.WillDelete?
    case SendTouch(call) => call in s.calls && s.calls[call].phase.WillTouch?
    case Revoke(_) => true
    case Tick(_) => true
  }

  function Checked(c: Call, now: int): Call {
    match c.snapshot
    case None => c.(phase := Done, checkedAt := now)
    case Some(row) =>
      if Expired(row, now) then c.(phase := WillDelete(row.id), checkedAt := now)
      else c.(phase := WillTouch(row.id), checkedAt := now, answer := Some(Context(row.id, row.userId)))
  }

  function Step(hash: Token -> Digest, s: State, op: Op): State
    requires Enabled(s, op)
  {
    match op
    case Create(token, id, userId, clock) =>
      var row := NewRow(id, userId, clock);
      if hash(token) in s.rows || IdTaken(s.rows, id) then s
      else s.(rows := s.rows[hash(token) := row], log := s.log + [Created(token, row)])
    case Read(call, token) =>
      s.(calls := s.calls[call := Call(token, |s.log|, Find(s.rows, hash(token)), HasRead, s.now, None)])
    case Check(call) => s.(calls := s.calls[call := Checked(s.calls[call], s.now)])
    case SendDelete(call) =>
      s.(rows := DeleteById(s.rows, s.calls[call].phase.id),
         calls := s.calls[call := s.calls[call].(phase := Done)])
    case SendTouch(call) =>
      s.(rows := TouchById(s.rows, s.calls[call].phase.id, s.calls[call].checkedAt),
         calls := s.calls[call := s.calls[call].(phase := Done)])
    case Revoke(token) =>
      s.(rows := DeleteByHash(s.rows, hash(token)), log := s.log + [Revoked(token)])
    case Tick(ms) => s.(now := s.now + ms)
  }

  function Start(now: int): State {
    State(now, map[], map[], [])
  }

  ghost predicate CanRun(hash: Token -> Digest, s: State, ops: seq<Op>)
    decreases |ops|
  {
    ops == [] || (Enabled(s, ops[0]) && CanRun(hash, Step(hash, s, ops[0]), ops[1..]))
  }

  ghost function After(hash: Token -> Digest, s: State, ops: seq<Op>): State
    requires CanRun(hash, s, ops)
    decreases |ops|
  {
    if ops == [] then s else After(hash, Step(hash, s, ops[0]), ops[1..])
  }

  /** The service's validation is the run of its steps with nothing in between. */
  lemma ValidateIsRun(hash: Token -> Digest, s: State, call: CallId, token: Token)
    requires call !in s.calls
    ensures var s1 := Step(hash, s, Read(call, token));
            var s2 := Step(hash, s1, Check(call));
            var s3 := if s2.calls[call].phase.WillDelete? then Step(hash, s2, SendDelete(call))
                      else if s2.calls[call].phase.WillTouch? then Step(hash, s2, SendTouch(call))
                      else s2;
            && s3.rows == ValidateTable(s.rows, hash(token), s.now)
            && (s3.calls[call].answer.Some? <==>
                  hash(token) in s.rows && s.now < s.rows[hash(token)].expiresAt)
  {
  }
}
