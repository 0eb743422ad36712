/** The session store against its history: lazy deletion and late updates are unobservable. */
module SessionTheorems {
  import opened Prelude
  import opened Sessions

  /** The specification: the session that a token stands for, by the creations and revocations so far. */
  function Current(log: seq<Event>, token: Token): Option<Row> {
    if log == [] then None
    else
      var e := log[|log| - 1];
      if e.token != token then Current(log[..|log| - 1], token)
      else match e case Created(_, row) => Some(row) case Revoked(_) => None
  }

  /** Everything but the time it was last seen. */
  predicate SameSession(a: Row, b: Row) {
    a.id == b.id && a.userId == b.userId && a.expiresAt == b.expiresAt
  }

  /** Of the tokens in play no two have the same hash. */
  ghost predicate NoCollisions(hash: Token -> Digest, tokens: set<Token>) {
    forall a, b :: a in tokens && b in tokens && hash(a) == hash(b) ==> a == b
  }

  predicate InPlay(op: Op, tokens: set<Token>) {
    op.Create? || op.Read? || op.Revoke? ==> op.token in tokens
  }

  ghost predicate AllInPlay(ops: seq<Op>, tokens: set<Token>) {
    forall i :: 0 <= i < |ops| ==> InPlay(ops[i], tokens)
  }

  // ----- the invariant

  /** A row is there only for a current session; a current session without a row has expired. */
  ghost predicate RowMatches(hash: Token -> Digest, s: State, token: Token) {
    match Current(s.log, token)
    case None => hash(token) !in s.rows
    case Some(row) =>
      if hash(token) in s.rows then SameSession(s.rows[hash(token)], row) else Expired(row, s.now)
  }

  /** Every row was created for some token. */
  ghost predicate RowsAreHashes(hash: Token -> Digest, tokens: set<Token>, s: State) {
    forall d :: d in s.rows ==> exists t :: t in tokens && hash(t) == d && Current(s.log, t).Some?
  }

  /** What a validation read agrees with the history at the time of its read. */
  ghost predicate SnapshotMatches(s: State, c: Call) {
    c.readAt <= |s.log| &&
    match Current(s.log[..c.readAt], c.token)
    case None => c.snapshot.None?
    case Some(row) =>
      if c.snapshot.Some? then SameSession(c.snapshot.value, row) else Expired(row, c.checkedAt)
  }

  ghost predicate AnswerMatches(s: State, c: Call) {
    c.readAt <= |s.log| &&
    match Current(s.log[..c.readAt], c.token)
    case None => c.answer == None
    case Some(row) => c.answer == if c.checkedAt < row.expiresAt then Some(Context(row.id, row.userId)) else None
  }

  ghost predicate CallMatches(s: State, c: Call) {
    && c.checkedAt <= s.now
    && SnapshotMatches(s, c)
    && (if c.phase.HasRead? then c.answer.None? else AnswerMatches(s, c))
    && (c.phase.WillDelete? ==> c.snapshot.Some? && c.snapshot.value.id == c.phase.id
                                && Expired(c.snapshot.value, s.now))
  }

  /** An id belongs to one creation. */
  ghost predicate IdsUnique(log: seq<Event>) {
    forall i, j :: 0 <= i < j < |log| && log[i].Created? && log[j].Created? ==> log[i].row.id != log[j].row.id
  }

  ghost predicate Inv(hash: Token -> Digest, tokens: set<Token>, s: State) {
    && (forall token :: token in tokens ==> RowMatches(hash, s, token))
    && RowsAreHashes(hash, tokens, s)
    && (forall call :: call in s.calls ==> CallMatches(s, s.calls[call]))
    && IdsUnique(s.log)
  }

  lemma {:induction false} CurrentWasCreated(log: seq<Event>, token: Token) returns (i: nat)
    requires Current(log, token).Some?
    ensures i < |log| && log[i] == Created(token, Current(log, token).value)
  {
    var k := |log| - 1;
    if log[k].token == token {
      i := k;
    } else {
      i := CurrentWasCreated(log[..k], token);
    }
  }

  /** The specification in the open: created with this row, and nothing has happened to the token since. */
  lemma {:induction false} CurrentMeans(log: seq<Event>, token: Token, row: Row)
    ensures Current(log, token) == Some(row) <==>
            exists i :: 0 <= i < |log| && log[i] == Created(token, row) && Untouched(log, i, token)
  {
    if log != [] {
      var k := |log| - 1;
      var before := log[..k];
      CurrentMeans(before, token, row);
      if i :| 0 <= i < |before| && before[i] == Created(token, row) && Untouched(before, i, token) {
        assert log[i] == before[i];
        assert log[k].token != token ==> Untouched(log, i, token);
      }
      if i :| 0 <= i < |log| && log[i] == Created(token, row) && Untouched(log, i, token) {
        if i < k { assert before[i] == log[i] && Untouched(before, i, token) && log[k].token != token; }
      }
      if log[k] == Created(token, row) { assert Untouched(log, k, token); }
    }
  }

  ghost predicate Untouched(log: seq<Event>, i: int, token: Token) {
    forall j :: i < j < |log| && j >= 0 ==> log[j].token != token
  }

  lemma CurrentAppend(log: seq<Event>, e: Event, token: Token)
    ensures Current(log + [e], token)
            == if e.token != token then Current(log, token)
               else match e case Created(_, row) => Some(row) case Revoked(_) => None
  {
    assert (log + [e])[..|log|] == log;
  }

  /** A delete that was decided on long ago still removes nothing but an expired row. */
  lemma DeletesOnlyExpired(hash: Token -> Digest, tokens: set<Token>, s: State, call: CallId, d: Digest)
    requires Inv(hash, tokens, s) && call in s.calls && s.calls[call].phase.WillDelete?
    requires d in s.rows && s.rows[d].id == s.calls[call].phase.id
    ensures Expired(s.rows[d], s.now)
  {
    var c := s.calls[call];
    var t :| t in tokens && hash(t) == d && Current(s.log, t).Some?;
    assert RowMatches(hash, s, t);
    var i := CurrentWasCreated(s.log, t);
    var j := CurrentWasCreated(s.log[..c.readAt], c.token);
    assert s.log[j] == s.log[..c.readAt][j];
  }

  lemma StepKeepsRow(hash: Token -> Digest, tokens: set<Token>, s: State, op: Op, token: Token)
    requires Enabled(s, op) && InPlay(op, tokens) && token in tokens
    requires Inv(hash, tokens, s) && NoCollisions(hash, tokens)
    ensures RowMatches(hash, Step(hash, s, op), token)
  {
    var s' := Step(hash, s, op);
    assert RowMatches(hash, s, token);
    match op
    case Create(t, id, userId, clock) => CurrentAppend(s.log, Created(t, NewRow(id, userId, clock)), token);
    case Revoke(t) => CurrentAppend(s.log, Revoked(t), token);
    case SendDelete(call) =>
      if hash(token) in s.rows && hash(token) !in s'.rows {
        DeletesOnlyExpired(hash, tokens, s, call, hash(token));
      }
    case Read(_, _) =>
    case Check(_) =>
    case SendTouch(_) =>
    case Tick(_) =>
  }

  lemma StepKeepsHashes(hash: Token -> Digest, tokens: set<Token>, s: State, op: Op)
    requires Enabled(s, op) && InPlay(op, tokens) && Inv(hash, tokens, s) && NoCollisions(hash, tokens)
    ensures RowsAreHashes(hash, tokens, Step(hash, s, op))
  {
    var s' := Step(hash, s, op);
    forall d | d in s'.rows ensures exists t :: t in tokens && hash(t) == d && Current(s'.log, t).Some? {
      if d in s.rows {
        var t :| t in tokens && hash(t) == d && Current(s.log, t).Some?;
        StepKeepsRow(hash, tokens, s, op, t);
        assert Current(s'.log, t).Some?;
      } else {
        StepKeepsRow(hash, tokens, s, op, op.token);
        assert Current(s'.log, op.token).Some?;
      }
    }
  }

  lemma LogGrows(hash: Token -> Digest, s: State, op: Op)
    requires Enabled(s, op)
    ensures s.log <= Step(hash, s, op).log && s.now <= Step(hash, s, op).now
  {
  }

  lemma CallStays(s: State, s': State, c: Call)
    requires s.log <= s'.log && s.now <= s'.now && CallMatches(s, c)
    ensures CallMatches(s', c)
  {
    assert s'.log[..c.readAt] == s.log[..c.readAt];
  }

  lemma StepKeepsCall(hash: Token -> Digest, tokens: set<Token>, s: State, op: Op, call: CallId)
    requires Enabled(s, op) && InPlay(op, tokens) && Inv(hash, tokens, s)
    requires call in Step(hash, s, op).calls
    ensures CallMatches(Step(hash, s, op), Step(hash, s, op).calls[call])
  {
    var s' := Step(hash, s, op);
    LogGrows(hash, s, op);
    if call in s.calls {
      assert CallMatches(s, s.calls[call]);
      CallStays(s, s', s.calls[call]);
    } else {
      var token := op.token;
      assert RowMatches(hash, s, token);
      assert s.log[..|s.log|] == s.log;
    }
  }

  lemma StepKeepsIds(hash: Token -> Digest, s: State, op: Op)
    requires Enabled(s, op) && IdsUnique(s.log)
    ensures IdsUnique(Step(hash, s, op).log)
  {
  }

  lemma {:induction false} RunKeepsInv(hash: Token -> Digest, tokens: set<Token>, s: State, ops: seq<Op>)
    requires CanRun(hash, s, ops) && AllInPlay(ops, tokens)
    requires Inv(hash, tokens, s) && NoCollisions(hash, tokens)
    ensures Inv(hash, tokens, After(hash, s, ops))
    decreases |ops|
  {
    if ops != [] {
      var s1 := Step(hash, s, ops[0]);
      forall token | token in tokens ensures RowMatches(hash, s1, token) {
        StepKeepsRow(hash, tokens, s, ops[0], token);
      }
      StepKeepsHashes(hash, tokens, s, ops[0]);
      forall call | call in s1.calls ensures CallMatches(s1, s1.calls[call]) {
        StepKeepsCall(hash, tokens, s, ops[0], call);
      }
      StepKeepsIds(hash, s, ops[0]);
      RunKeepsInv(hash, tokens, s1, ops[1..]);
    }
  }

  lemma Reachable(hash: Token -> Digest, tokens: set<Token>, now: int, ops: seq<Op>)
    requires CanRun(hash, Start(now), ops) && AllInPlay(ops, tokens) && NoCollisions(hash, tokens)
    ensures Inv(hash, tokens, After(hash, Start(now), ops))
  {
    RunKeepsInv(hash, tokens, Start(now), ops);
  }

  // ----- what a validation answers

  /**
   Over every interleaving: a validation succeeds exactly when its token stood for a session at the
   time of its read and that session had not expired when the clock was looked at. Rows deleted
   lazily, and updates and deletes sent late, make no difference.
   */
  lemma ValidateAnswers(hash: Token -> Digest, tokens: set<Token>, now: int, ops: seq<Op>, call: CallId)
    requires CanRun(hash, Start(now), ops) && AllInPlay(ops, tokens) && NoCollisions(hash, tokens)
    requires call in After(hash, Start(now), ops).calls
    requires !After(hash, Start(now), ops).calls[call].phase.HasRead?
    ensures var s := After(hash, Start(now), ops); var c := s.calls[call];
            && c.readAt <= |s.log|
            && var session := Current(s.log[..c.readAt], c.token);
               c.answer == if session.Some? && c.checkedAt < session.value.expiresAt
                           then Some(Context(session.value.id, session.value.userId)) else None
  {
    Reachable(hash, tokens, now, ops);
    var s := After(hash, Start(now), ops);
    assert CallMatches(s, s.calls[call]);
  }

  /** Uninterrupted: the table says valid exactly when the history does. */
  lemma ValidateCurrent(hash: Token -> Digest, tokens: set<Token>, now: int, ops: seq<Op>, token: Token)
    requires CanRun(hash, Start(now), ops) && AllInPlay(ops, tokens) && NoCollisions(hash, tokens)
    requires token in tokens
    ensures var s := After(hash, Start(now), ops);
            (hash(token) in s.rows && s.now < s.rows[hash(token)].expiresAt)
            <==> (Current(s.log, token).Some? && s.now < Current(s.log, token).value.expiresAt)
  {
    Reachable(hash, tokens, now, ops);
    assert RowMatches(hash, After(hash, Start(now), ops), token);
  }

  /** A creation with a fresh token and id is never refused, and makes the token current. */
  lemma FreshCreateSucceeds(hash: Token -> Digest, tokens: set<Token>, now: int, ops: seq<Op>, op: Op)
    requires CanRun(hash, Start(now), ops) && AllInPlay(ops, tokens) && NoCollisions(hash, tokens)
    requires op.Create? && op.token in tokens && Enabled(After(hash, Start(now), ops), op)
    ensures var s := After(hash, Start(now), ops); var row := NewRow(op.id, op.userId, op.clock);
            && Step(hash, s, op).rows == s.rows[hash(op.token) := row]
            && Current(Step(hash, s, op).log, op.token) == Some(row)
  {
    var s := After(hash, Start(now), ops);
    Reachable(hash, tokens, now, ops);
    assert RowMatches(hash, s, op.token);
    if hash(op.token) in s.rows { var i := CurrentWasCreated(s.log, op.token); }
    if d :| d in s.rows && s.rows[d].id == op.id {
      var t :| t in tokens && hash(t) == d && Current(s.log, t).Some?;
      assert RowMatches(hash, s, t);
      var i := CurrentWasCreated(s.log, t);
    }
    CurrentAppend(s.log, Created(op.token, NewRow(op.id, op.userId, op.clock)), op.token);
  }

  /** Expiry times are fixed at creation: twelve hours after the clock that the creation read. */
  lemma {:induction false} ExpiryIsCreation(hash: Token -> Digest, s: State, ops: seq<Op>, i: nat)
    requires CanRun(hash, s, ops)
    requires |s.log| <= i < |After(hash, s, ops).log| && After(hash, s, ops).log[i].Created?
    ensures exists k :: 0 <= k < |ops| && ops[k].Create?
              && After(hash, s, ops).log[i] == Created(
                   ops[k].token,
                   Row(ops[k].id, ops[k].userId, ops[k].clock + 12 * 60 * 60 * 1000, ops[k].clock))
    decreases |ops|
  {
    var s1 := Step(hash, s, ops[0]);
    if i < |s1.log| {
      LogOnlyGrows(hash, s1, ops[1..]);
      assert ops[0].Create?;
    } else {
      ExpiryIsCreation(hash, s1, ops[1..], i);
      var k :| 0 <= k < |ops[1..]| && ops[1..][k].Create? && After(hash, s, ops).log[i]
        == Created(ops[1..][k].token, NewRow(ops[1..][k].id, ops[1..][k].userId, ops[1..][k].clock));
      assert ops[k + 1] == ops[1..][k];
    }
  }

  lemma {:induction false} LogOnlyGrows(hash: Token -> Digest, s: State, ops: seq<Op>)
    requires CanRun(hash, s, ops)
    ensures s.log <= After(hash, s, ops).log
    decreases |ops|
  {
    if ops != [] {
      LogGrows(hash, s, ops[0]);
      LogOnlyGrows(hash, Step(hash, s, ops[0]), ops[1..]);
    }
  }

  /** The i-th event is the creation that the k-th operation made for the token, and the last about it. */
  ghost predicate CreatedBy(log: seq<Event>, ops: seq<Op>, token: Token, i: int, k: int) {
    && 0 <= i < |log| && 0 <= k < |ops| && ops[k].Create? && ops[k].token == token
    && log[i] == Created(token, NewRow(ops[k].id, ops[k].userId, ops[k].clock))
    && Untouched(log, i, token)
  }

  /**
   Uninterrupted, a token is valid exactly when some operation created it with a clock less than a
   lifetime ago, and nothing has happened to it since: neither a revocation nor another creation.
   */
  lemma ValidateNow(hash: Token -> Digest, tokens: set<Token>, now: int, ops: seq<Op>, token: Token)
    requires CanRun(hash, Start(now), ops) && AllInPlay(ops, tokens) && NoCollisions(hash, tokens)
    requires token in tokens
    ensures var s := After(hash, Start(now), ops);
            (hash(token) in s.rows && s.now < s.rows[hash(token)].expiresAt)
            <==> exists i, k :: CreatedBy(s.log, ops, token, i, k) && s.now < ops[k].clock + 12 * 60 * 60 * 1000
  {
    var s := After(hash, Start(now), ops);
    ValidateCurrent(hash, tokens, now, ops, token);
    if hash(token) in s.rows && s.now < s.rows[hash(token)].expiresAt {
      var row := Current(s.log, token).value;
      CurrentMeans(s.log, token, row);
      var i :| 0 <= i < |s.log| && s.log[i] == Created(token, row) && Untouched(s.log, i, token);
      ExpiryIsCreation(hash, Start(now), ops, i);
      var k :| 0 <= k < |ops| && ops[k].Create?
               && s.log[i] == Created(ops[k].token, NewRow(ops[k].id, ops[k].userId, ops[k].clock));
      assert CreatedBy(s.log, ops, token, i, k);
    } else if i, k :| CreatedBy(s.log, ops, token, i, k) && s.now < ops[k].clock + SESSION_TTL_MS {
      CurrentMeans(s.log, token, NewRow(ops[k].id, ops[k].userId, ops[k].clock));
    }
  }

  // ----- revocation is final

  ghost predicate TokensUnique(log: seq<Event>) {
    forall i, j :: 0 <= i < j < |log| && log[i].Created? && log[j].Created? ==> log[i].token != log[j].token
  }

  lemma {:induction false} RunKeepsTokens(hash: Token -> Digest, s: State, ops: seq<Op>)
    requires CanRun(hash, s, ops) && TokensUnique(s.log)
    ensures TokensUnique(After(hash, s, ops).log)
    decreases |ops|
  {
    if ops != [] { RunKeepsTokens(hash, Step(hash, s, ops[0]), ops[1..]); }
  }

  lemma {:induction false} NoneAfterRevoke(log: seq<Event>, token: Token, i: nat, j: nat)
    requires i < j < |log| && log[i].Created? && log[i].token == token && log[j] == Revoked(token)
    requires TokensUnique(log)
    ensures Current(log, token) == None
  {
    var k := |log| - 1;
    if j < k {
      NoneAfterRevoke(log[..k], token, i, j);
      assert log[k].Created? ==> log[i].token != log[k].token;
    }
  }

  lemma {:induction false} LogInPlay(hash: Token -> Digest, tokens: set<Token>, s: State, ops: seq<Op>, i: nat)
    requires CanRun(hash, s, ops) && AllInPlay(ops, tokens)
    requires |s.log| <= i < |After(hash, s, ops).log|
    ensures After(hash, s, ops).log[i].token in tokens
    decreases |ops|
  {
    var s1 := Step(hash, s, ops[0]);
    LogOnlyGrows(hash, s1, ops[1..]);
    if i >= |s1.log| { LogInPlay(hash, tokens, s1, ops[1..], i); }
  }

  /**
   A session that was created and then revoked has no row again, and every validation that reads
   after the revocation answers null, whatever was under way when it happened.
   */
  lemma RevocationIsFinal(hash: Token -> Digest, tokens: set<Token>, now: int, ops: seq<Op>, i: nat, j: nat)
    requires CanRun(hash, Start(now), ops) && AllInPlay(ops, tokens) && NoCollisions(hash, tokens)
    requires var log := After(hash, Start(now), ops).log;
             i < j < |log| && log[i].Created? && log[j] == Revoked(log[i].token)
    ensures var s := After(hash, Start(now), ops); var token := s.log[i].token;
            && hash(token) !in s.rows
            && forall call :: call in s.calls && s.calls[call].token == token && s.calls[call].readAt > j
                 ==> s.calls[call].answer == None
  {
    var s := After(hash, Start(now), ops);
    var token := s.log[i].token;
    Reachable(hash, tokens, now, ops);
    RunKeepsTokens(hash, Start(now), ops);
    LogInPlay(hash, tokens, Start(now), ops, j);
    NoneAfterRevoke(s.log, token, i, j);
    assert RowMatches(hash, s, token);
    forall call | call in s.calls && s.calls[call].token == token && s.calls[call].readAt > j
      ensures s.calls[call].answer == None
    {
      var c := s.calls[call];
      assert CallMatches(s, c);
      NoneAfterRevoke(s.log[..c.readAt], token, i, j);
    }
  }

  lemma StepAddsNothing(hash: Token -> Digest, s: State, op: Op, d: Digest)
    requires Enabled(s, op) && (op.Create? ==> hash(op.token) != d)
    requires d in Step(hash, s, op).rows
    ensures d in s.rows && SameSession(Step(hash, s, op).rows[d], s.rows[d])
  {
  }

  /** From any state, over any run: a row that the run did not create was there before, for the same session. */
  lemma {:induction false} NoRowFromNowhere(hash: Token -> Digest, s: State, ops: seq<Op>, d: Digest)
    requires CanRun(hash, s, ops)
    requires forall i :: 0 <= i < |ops| && ops[i].Create? ==> hash(ops[i].token) != d
    requires d in After(hash, s, ops).rows
    ensures d in s.rows && SameSession(After(hash, s, ops).rows[d], s.rows[d])
    decreases |ops|
  {
    if ops != [] {
      NoRowFromNowhere(hash, Step(hash, s, ops[0]), ops[1..], d);
      StepAddsNothing(hash, s, ops[0], d);
    }
  }

  // ----- why tokens must be fresh

  predicate Accepts(rows: Table, digest: Digest, id: Id) {
    digest !in rows && !IdTaken(rows, id)
  }

  /**
   Lazy deletion shows in exactly one way: an insert that draws a used token is refused while the
   expired row is there, and accepted once a validation has removed it.
   */
  lemma ReuseIsObservable(rows: Table, digest: Digest, id: Id, now: int)
    requires !IdTaken(rows, id)
    ensures Accepts(ValidateTable(rows, digest, now), digest, id) != Accepts(rows, digest, id)
            <==> digest in rows && Expired(rows[digest], now)
  {
    var after := ValidateTable(rows, digest, now);
    forall d | d in after ensures after[d].id != id {
      assert d in rows && after[d].id == rows[d].id;
    }
  }
}
