/**
 Single-use challenges: the store in memory and the store in SQLite. Nonces and clock readings, which
 the program takes from its environment, are parameters.
 */
module ChallengeStore {
  import opened Outcomes

  type Nonce = string

  datatype Challenge = Challenge(nonce: Nonce, domain: string, action: string, issuedAt: int, expiresAt: int)

  /** A row of the table; a consumed row keeps the time of its consumption. */
  datatype Row = Row(challenge: Challenge, consumedAt: Option<int>)

  type Pending = map<Nonce, Challenge>
  type Table = map<Nonce, Row>

  function NewChallenge(nonce: Nonce, domain: string, action: string, ttl: int, now: int): Challenge {
    Challenge(nonce, domain, action, now, now + ttl)
  }

  // ------------------------------------------------------------------ one operation

  /** Consuming in memory: the entry is gone whether or not it had expired. */
  function PopPending(p: Pending, nonce: Nonce, now: int): (Pending, Option<Challenge>) {
    if nonce !in p then (p, None)
    else (p - {nonce}, if p[nonce].expiresAt < now then None else Some(p[nonce]))
  }

  function Prune(t: Table, now: int): Table {
    map n | n in t && t[n].challenge.expiresAt >= now :: t[n]
  }

  /** The insert fails, and with it the whole transaction, when the nonce still has a row. */
  function InsertRow(t: Table, c: Challenge, now: int): Result<Table> {
    var pruned := Prune(t, now);
    if c.nonce in pruned then Thrown else Ok(pruned[c.nonce := Row(c, None)])
  }

  predicate Unconsumed(t: Table, nonce: Nonce) {
    nonce in t && t[nonce].consumedAt.None?
  }

  function MarkRow(t: Table, nonce: Nonce, now: int): Table {
    if Unconsumed(t, nonce) then t[nonce := t[nonce].(consumedAt := Some(now))] else t
  }

  /** What consuming returns for the row that was found. */
  function ConsumeResult(t: Table, nonce: Nonce, now: int): Option<Challenge> {
    if Unconsumed(t, nonce) && t[nonce].challenge.expiresAt >= now then Some(t[nonce].challenge) else None
  }

  /** `ChallengeStore` without a database. */
  class MemoryStore {
    const ttl: int
    var pending: Pending

    constructor (ttl: int)
      requires ttl > 0
      ensures pending == map[] && this.ttl == ttl
    {
      this.ttl := ttl;
      pending := map[];
    }

    method Issue(domain: string, action: string, nonce: Nonce, now: int) returns (c: Challenge)
      modifies this
      ensures c == NewChallenge(nonce, domain, action, ttl, now)
      ensures pending == old(pending)[nonce := c]
    {
      c := NewChallenge(nonce, domain, action, ttl, now);
      pending := pending[c.nonce := c];
    }

    method Consume(nonce: Nonce, now: int) returns (r: Option<Challenge>)
      modifies this
      ensures (pending, r) == PopPending(old(pending), nonce, now)
    {
      if nonce !in pending {
        return None;
      }
      var challenge := pending[nonce];
      pending := pending - {nonce};
      if challenge.expiresAt < now {
        return None;
      }
      r := Some(challenge);
    }
  }

  /** `ChallengeStore` with a database; each method is one transaction, seen from outside. */
  class SqliteStore {
    const ttl: int
    var rows: Table

    constructor (ttl: int)
      requires ttl > 0
      ensures rows == map[] && this.ttl == ttl
    {
      this.ttl := ttl;
      rows := map[];
    }

    /** Opening an existing database creates nothing that is already there. */
    constructor Reopen(ttl: int, earlier: SqliteStore)
      requires ttl > 0
      ensures rows == earlier.rows && this.ttl == ttl
    {
      this.ttl := ttl;
      rows := earlier.rows;
    }

    /** The clock is read twice: for the challenge, and for deleting what has expired. */
    method Issue(domain: string, action: string, nonce: Nonce, now: int, pruneNow: int) returns (res: Result<Challenge>)
      modifies this
      ensures var c, after := NewChallenge(nonce, domain, action, ttl, now),
                              InsertRow(old(rows), NewChallenge(nonce, domain, action, ttl, now), pruneNow);
              && (after.Ok? ==> res == Ok(c) && rows == after.value)
              && (after.Thrown? ==> res == Thrown && rows == old(rows))
    {
      var c := NewChallenge(nonce, domain, action, ttl, now);
      var before := rows;
      rows := Prune(rows, pruneNow);
      if c.nonce in rows {
        rows := before;
        return Thrown;
      }
      rows := rows[c.nonce := Row(c, None)];
      res := Ok(c);
    }

    method Consume(nonce: Nonce, now: int) returns (r: Option<Challenge>)
      modifies this
      ensures rows == MarkRow(old(rows), nonce, now) && r == ConsumeResult(old(rows), nonce, now)
    {
      if !Unconsumed(rows, nonce) {
        return None;
      }
      var row := rows[nonce];
      rows := rows[nonce := row.(consumedAt := Some(now))];
      if row.challenge.expiresAt < now {
        return None;
      }
      r := Some(row.challenge);
    }
  }

  // ------------------------------------------------------------------ both stores side by side

  /** A call on a store, with the clock readings it makes; reopening concerns the database only. */
  datatype Call =
    | Issue(domain: string, action: string, nonce: Nonce, now: int, pruneNow: int)
    | Consume(wanted: Nonce, at: int)
    | Reopen

  datatype Answer = Issued(challenge: Challenge) | Failed | Consumed(result: Option<Challenge>) | Reopened

  function MemoryStep(p: Pending, ttl: int, call: Call): (Pending, Answer) {
    match call
    case Issue(domain, action, nonce, now, _) =>
      var c := NewChallenge(nonce, domain, action, ttl, now);
      (p[nonce := c], Issued(c))
    case Consume(nonce, now) =>
      var (p', r) := PopPending(p, nonce, now);
      (p', Consumed(r))
    case Reopen => (p, Reopened)
  }

  function DatabaseStep(t: Table, ttl: int, call: Call): (Table, Answer) {
    match call
    case Issue(domain, action, nonce, now, pruneNow) =>
      var c := NewChallenge(nonce, domain, action, ttl, now);
      var after := InsertRow(t, c, pruneNow);
      if after.Thrown? then (t, Failed) else (after.value, Issued(c))
    case Consume(nonce, now) => (MarkRow(t, nonce, now), Consumed(ConsumeResult(t, nonce, now)))
    case Reopen => (t, Reopened)
  }

  /** The pending challenges before the call at place `k`, from an empty store on. */
  function MemoryAt(ttl: int, calls: seq<Call>, k: nat): Pending
    requires k <= |calls|
  {
    if k == 0 then map[] else MemoryStep(MemoryAt(ttl, calls, k - 1), ttl, calls[k - 1]).0
  }

  function DatabaseAt(ttl: int, calls: seq<Call>, k: nat): Table
    requires k <= |calls|
  {
    if k == 0 then map[] else DatabaseStep(DatabaseAt(ttl, calls, k - 1), ttl, calls[k - 1]).0
  }

  function MemoryAnswer(ttl: int, calls: seq<Call>, k: nat): Answer
    requires k < |calls|
  {
    MemoryStep(MemoryAt(ttl, calls, k), ttl, calls[k]).1
  }

  function DatabaseAnswer(ttl: int, calls: seq<Call>, k: nat): Answer
    requires k < |calls|
  {
    DatabaseStep(DatabaseAt(ttl, calls, k), ttl, calls[k]).1
  }

  /** Nobody can tell the stores apart by what they answer. */
  ghost predicate SameAnswers(ttl: int, calls: seq<Call>) {
    forall k | 0 <= k < |calls| :: MemoryAnswer(ttl, calls, k) == DatabaseAnswer(ttl, calls, k)
  }

  // ------------------------------------------------------------------ what the stores hold

  predicate Issues(call: Call, nonce: Nonce) {
    call.Issue? && call.nonce == nonce
  }

  /** The last call before place `k` that issued the nonce, or -1. */
  function LastIssue(calls: seq<Call>, k: nat, nonce: Nonce): (i: int)
    requires k <= |calls|
    ensures -1 <= i < k && (i >= 0 ==> Issues(calls[i], nonce))
    ensures forall m | i < m < k :: !Issues(calls[m], nonce)
  {
    if k == 0 then -1
    else if Issues(calls[k - 1], nonce) then k - 1
    else LastIssue(calls, k - 1, nonce)
  }

  function IssuedBy(ttl: int, call: Call): Challenge
    requires call.Issue?
  {
    NewChallenge(call.nonce, call.domain, call.action, ttl, call.now)
  }

  /** Between the two places nobody has asked for the nonce. */
  predicate Untouched(calls: seq<Call>, i: nat, k: nat, nonce: Nonce)
    requires k <= |calls|
  {
    forall m | i < m < k :: calls[m].Consume? ==> calls[m].wanted != nonce
  }

  /** Between the two places the database has not deleted what the first of them issued. */
  predicate Unpruned(ttl: int, calls: seq<Call>, i: nat, k: nat)
    requires i < k <= |calls| && calls[i].Issue?
  {
    forall m | i < m < k :: calls[m].Issue? ==> calls[m].pruneNow <= calls[i].now + ttl
  }

  predicate NoneFailed(ttl: int, calls: seq<Call>, k: nat)
    requires k <= |calls|
  {
    forall m | 0 <= m < k :: DatabaseAnswer(ttl, calls, m) != Failed
  }

  /** Memory holds what was issued last until somebody asks for it; the database holds it until it is pruned. */
  ghost predicate Held(ttl: int, calls: seq<Call>, k: nat, n: Nonce, p: Pending, t: Table)
    requires k <= |calls|
  {
    var i := LastIssue(calls, k, n);
    if i < 0 then n !in p && n !in t
    else
      && (n in p <==> Untouched(calls, i, k, n)) && (n in t <==> Unpruned(ttl, calls, i, k))
      && (n in p ==> p[n] == IssuedBy(ttl, calls[i]))
      && (n in t ==> t[n].challenge == IssuedBy(ttl, calls[i]) && (Unconsumed(t, n) <==> Untouched(calls, i, k, n)))
  }

  lemma HeldAfterIssue(ttl: int, calls: seq<Call>, k: nat, n: Nonce, p: Pending, t: Table)
    requires k < |calls| && calls[k].Issue? && Held(ttl, calls, k, n, p, t)
    requires InsertRow(t, IssuedBy(ttl, calls[k]), calls[k].pruneNow).Ok?
    ensures Held(ttl, calls, k + 1, n, MemoryStep(p, ttl, calls[k]).0, DatabaseStep(t, ttl, calls[k]).0)
  {
    if calls[k].nonce != n && LastIssue(calls, k, n) >= 0 {
      var i := LastIssue(calls, k, n);
      assert Untouched(calls, i, k + 1, n) <==> Untouched(calls, i, k, n);
      assert Unpruned(ttl, calls, i, k + 1) <==> Unpruned(ttl, calls, i, k) && calls[k].pruneNow <= calls[i].now + ttl;
    }
  }

  lemma HeldAfterConsume(ttl: int, calls: seq<Call>, k: nat, n: Nonce, p: Pending, t: Table)
    requires k < |calls| && calls[k].Consume? && Held(ttl, calls, k, n, p, t)
    ensures Held(ttl, calls, k + 1, n, MemoryStep(p, ttl, calls[k]).0, DatabaseStep(t, ttl, calls[k]).0)
  {
    if LastIssue(calls, k, n) >= 0 {
      var i := LastIssue(calls, k, n);
      assert Untouched(calls, i, k + 1, n) <==> Untouched(calls, i, k, n) && calls[k].wanted != n;
      assert Unpruned(ttl, calls, i, k + 1) <==> Unpruned(ttl, calls, i, k);
    }
  }

  lemma {:induction false} HeldAt(ttl: int, calls: seq<Call>, k: nat, n: Nonce)
    requires k <= |calls| && NoneFailed(ttl, calls, k)
    ensures Held(ttl, calls, k, n, MemoryAt(ttl, calls, k), DatabaseAt(ttl, calls, k))
    decreases k
  {
    if k > 0 {
      HeldAt(ttl, calls, k - 1, n);
      var p, t := MemoryAt(ttl, calls, k - 1), DatabaseAt(ttl, calls, k - 1);
      assert DatabaseAnswer(ttl, calls, k - 1) != Failed;
      if calls[k - 1].Issue? {
        HeldAfterIssue(ttl, calls, k - 1, n, p, t);
      } else if calls[k - 1].Consume? {
        HeldAfterConsume(ttl, calls, k - 1, n, p, t);
      }
    }
  }

  /** What a consume returns, as long as no issue has failed: the last issue's challenge, once and in time. */
  lemma ConsumeReturns(ttl: int, calls: seq<Call>, k: nat)
    requires k < |calls| && calls[k].Consume? && NoneFailed(ttl, calls, k)
    ensures var n, at, i := calls[k].wanted, calls[k].at, LastIssue(calls, k, calls[k].wanted);
            if i < 0 || !Untouched(calls, i, k, n) || at > calls[i].now + ttl then
              MemoryAnswer(ttl, calls, k) == DatabaseAnswer(ttl, calls, k) == Consumed(None)
            else
              var c := Challenge(n, calls[i].domain, calls[i].action, calls[i].now, calls[i].now + ttl);
              && MemoryAnswer(ttl, calls, k) == Consumed(Some(c))
              && DatabaseAnswer(ttl, calls, k) == Consumed(if Unpruned(ttl, calls, i, k) then Some(c) else None)
  {
    hide DatabaseAt, MemoryAt;
    HeldAt(ttl, calls, k, calls[k].wanted);
  }

  // ------------------------------------------------------------------ when they give the same answers

  /** The database still has the row of the nonce's last issue when the nonce is issued again. */
  predicate Refuses(ttl: int, calls: seq<Call>, i: int, j: int) {
    && 0 <= i < j < |calls| && calls[i].Issue? && calls[j].Issue? && LastIssue(calls, j, calls[j].nonce) == i
    && Unpruned(ttl, calls, i, j) && calls[i].now + ttl >= calls[j].pruneNow
  }

  /** The database has pruned a challenge, on a clock since set back, that memory still returns. */
  predicate Forgets(ttl: int, calls: seq<Call>, i: int, k: int) {
    && 0 <= i < k < |calls| && calls[i].Issue? && calls[k].Consume? && LastIssue(calls, k, calls[k].wanted) == i
    && Untouched(calls, i, k, calls[k].wanted) && calls[k].at <= calls[i].now + ttl && !Unpruned(ttl, calls, i, k)
  }

  /** A refused issue is one whose nonce still has a row; memory never refuses. */
  lemma FailedIff(ttl: int, calls: seq<Call>, j: nat)
    requires j < |calls| && NoneFailed(ttl, calls, j)
    ensures DatabaseAnswer(ttl, calls, j) == Failed <==> calls[j].Issue? && exists i :: Refuses(ttl, calls, i, j)
    ensures MemoryAnswer(ttl, calls, j) != Failed
  {
    hide DatabaseAt, MemoryAt;
    if calls[j].Issue? {
      var i := LastIssue(calls, j, calls[j].nonce);
      HeldAt(ttl, calls, j, calls[j].nonce);
      if DatabaseAnswer(ttl, calls, j) == Failed {
        assert Refuses(ttl, calls, i, j);
      }
    }
  }

  lemma {:induction false} NoneRefused(ttl: int, calls: seq<Call>, k: nat)
    requires k <= |calls| && forall i, j :: !Refuses(ttl, calls, i, j)
    ensures NoneFailed(ttl, calls, k)
    decreases k
  {
    if k > 0 {
      NoneRefused(ttl, calls, k - 1);
      FailedIff(ttl, calls, k - 1);
    }
  }

  /** Where no issue has failed, the answers at a place differ exactly when the database forgets. */
  lemma AnswersDiffer(ttl: int, calls: seq<Call>, k: nat)
    requires k < |calls| && NoneFailed(ttl, calls, k) && DatabaseAnswer(ttl, calls, k) != Failed
    ensures MemoryAnswer(ttl, calls, k) != DatabaseAnswer(ttl, calls, k) <==> exists i :: Forgets(ttl, calls, i, k)
  {
    hide DatabaseAt, MemoryAt;
    if calls[k].Consume? {
      var n := calls[k].wanted;
      HeldAt(ttl, calls, k, n);
      if MemoryAnswer(ttl, calls, k) != DatabaseAnswer(ttl, calls, k) {
        assert Forgets(ttl, calls, LastIssue(calls, k, n), k);
      }
    }
  }

  /**
   For all calls, nonces and clocks: from empty on, the two stores give the same answers if and only if
   no nonce is issued again that still has a row, and no challenge is asked for in time that was pruned.
   */
  lemma StoresAgree(ttl: int, calls: seq<Call>)
    ensures SameAnswers(ttl, calls)
            <==> (forall i, j :: !Refuses(ttl, calls, i, j)) && (forall i, k :: !Forgets(ttl, calls, i, k))
  {
    hide DatabaseAnswer, MemoryAnswer, Refuses, Forgets;
    if forall i, j :: !Refuses(ttl, calls, i, j) {
      NoneRefused(ttl, calls, |calls|);
      forall k | 0 <= k < |calls|
        ensures MemoryAnswer(ttl, calls, k) == DatabaseAnswer(ttl, calls, k) <==> forall i :: !Forgets(ttl, calls, i, k)
      {
        AnswersDiffer(ttl, calls, k);
      }
      forall i, k | Forgets(ttl, calls, i, k) ensures !SameAnswers(ttl, calls) {
        ForgetsWithin(ttl, calls, i, k);
        assert MemoryAnswer(ttl, calls, k) != DatabaseAnswer(ttl, calls, k);
      }
    } else {
      var i, j :| Refuses(ttl, calls, i, j);
      FirstFailure(ttl, calls, i, j);
    }
  }

  lemma ForgetsWithin(ttl: int, calls: seq<Call>, i: int, k: int)
    requires Forgets(ttl, calls, i, k)
    ensures 0 <= k < |calls|
  {
  }

  lemma FirstFailure(ttl: int, calls: seq<Call>, i: int, j: int)
    requires Refuses(ttl, calls, i, j)
    ensures !SameAnswers(ttl, calls)
  {
    hide DatabaseAnswer, MemoryAnswer;
    if SameAnswers(ttl, calls) {
      NeverFailed(ttl, calls, j);
      FailedIff(ttl, calls, j);
    }
  }

  lemma {:induction false} NeverFailed(ttl: int, calls: seq<Call>, k: nat)
    requires k <= |calls| && SameAnswers(ttl, calls)
    ensures NoneFailed(ttl, calls, k)
    decreases k
  {
    if k > 0 {
      NeverFailed(ttl, calls, k - 1);
      FailedIff(ttl, calls, k - 1);
      assert MemoryAnswer(ttl, calls, k - 1) == DatabaseAnswer(ttl, calls, k - 1);
    }
  }

  // ------------------------------------------------------------------ two cases of it

  function FirstReading(call: Call): int
    requires !call.Reopen?
  {
    if call.Issue? then call.now else call.at
  }

  function LastReading(call: Call): int
    requires !call.Reopen?
  {
    if call.Issue? then call.pruneNow else call.at
  }

  /** No clock reading is before the one before it. */
  predicate ClockRunsOn(calls: seq<Call>) {
    && (forall i | 0 <= i < |calls| && calls[i].Issue? :: calls[i].now <= calls[i].pruneNow)
    && (forall i, j | 0 <= i < j < |calls| && !calls[i].Reopen? && !calls[j].Reopen? ::
          LastReading(calls[i]) <= FirstReading(calls[j]))
  }

  /** Both calls issue one nonce, the second of them before the challenge of the first has expired. */
  predicate IssuedTwice(ttl: int, calls: seq<Call>, i: int, j: int) {
    && 0 <= i < j < |calls| && calls[i].Issue? && calls[j].Issue? && calls[i].nonce == calls[j].nonce
    && calls[i].now + ttl >= calls[j].pruneNow
  }

  /** While the clock runs on, only a nonce issued twice within the life of a challenge tells the stores apart. */
  lemma AgreeWhileClockRunsOn(ttl: int, calls: seq<Call>)
    requires ClockRunsOn(calls)
    ensures SameAnswers(ttl, calls) <==> forall i, j :: !IssuedTwice(ttl, calls, i, j)
  {
    hide SameAnswers;
    StoresAgree(ttl, calls);
    forall i, j | IssuedTwice(ttl, calls, i, j) ensures Refuses(ttl, calls, LastIssue(calls, j, calls[j].nonce), j) {
      var last := LastIssue(calls, j, calls[j].nonce);
      assert last >= i by {
        assert Issues(calls[i], calls[j].nonce);
      }
      assert last == i || calls[i].now <= calls[last].now by {
        assert last > i ==> LastReading(calls[i]) <= FirstReading(calls[last]);
      }
      forall m | last < m < j && calls[m].Issue? ensures calls[m].pruneNow <= calls[j].pruneNow {
        assert LastReading(calls[m]) <= FirstReading(calls[j]);
      }
    }
    forall i, j | Refuses(ttl, calls, i, j) ensures IssuedTwice(ttl, calls, i, j) {
    }
    forall i, k ensures !Forgets(ttl, calls, i, k) {
    }
  }

  /** No nonce is issued twice. */
  predicate FreshNonces(calls: seq<Call>) {
    forall i, j | 0 <= i < j < |calls| && calls[i].Issue? && calls[j].Issue? :: calls[i].nonce != calls[j].nonce
  }

  /** The first consume after the issue comes in time, but only after a later time was read for pruning. */
  predicate ClockSetBack(ttl: int, calls: seq<Call>, i: int, j: int, k: int) {
    && 0 <= i < j < k < |calls| && calls[i].Issue? && calls[j].Issue? && calls[k].Consume? && calls[k].wanted == calls[i].nonce
    && Untouched(calls, i, k, calls[i].nonce)
    && calls[k].at <= calls[i].now + ttl < calls[j].pruneNow
  }

  /** While nonces are fresh, only a clock that was set back tells the stores apart. */
  lemma AgreeOnFreshNonces(ttl: int, calls: seq<Call>)
    requires FreshNonces(calls)
    ensures SameAnswers(ttl, calls) <==> forall i, j, k :: !ClockSetBack(ttl, calls, i, j, k)
  {
    hide SameAnswers;
    StoresAgree(ttl, calls);
    forall i, j ensures !Refuses(ttl, calls, i, j) {
    }
    forall i, j, k | ClockSetBack(ttl, calls, i, j, k) ensures Forgets(ttl, calls, i, k) {
      assert Issues(calls[i], calls[k].wanted);
      assert LastIssue(calls, k, calls[k].wanted) == i;
    }
    forall i, k | Forgets(ttl, calls, i, k) ensures exists j :: ClockSetBack(ttl, calls, i, j, k) {
      var m :| i < m < k && calls[m].Issue? && calls[m].pruneNow > calls[i].now + ttl;
      assert ClockSetBack(ttl, calls, i, m, k);
    }
  }

  /** With fresh nonces and a clock that runs on, nobody can tell the stores apart. */
  lemma NobodyCanTell(ttl: int, calls: seq<Call>)
    requires ClockRunsOn(calls) && FreshNonces(calls)
    ensures SameAnswers(ttl, calls)
  {
    hide SameAnswers;
    AgreeWhileClockRunsOn(ttl, calls);
  }

  // ------------------------------------------------------------------ inputs that do

  /** With a clock that is set back: pruning has then removed what memory still returns. */
  lemma ClockSetBackShows()
    ensures var calls := [Issue("d", "login", "a", 0, 0), Issue("d", "login", "b", 100, 100), Consume("a", 50)];
            && FreshNonces(calls)
            && MemoryAnswer(90, calls, 2) == Consumed(Some(NewChallenge("a", "d", "login", 90, 0)))
            && DatabaseAnswer(90, calls, 2) == Consumed(None)
  {
    var calls := [Issue("d", "login", "a", 0, 0), Issue("d", "login", "b", 100, 100), Consume("a", 50)];
    assert MemoryAt(90, calls, 2) == MemoryStep(MemoryAt(90, calls, 1), 90, calls[1]).0;
    assert DatabaseAt(90, calls, 2) == DatabaseStep(DatabaseAt(90, calls, 1), 90, calls[1]).0;
  }

  /** With a nonce that is drawn again in time: memory replaces its challenge, the database refuses it. */
  lemma NonceRefused()
    ensures var calls := [Issue("d", "login", "a", 0, 0), Issue("d", "login", "a", 10, 10)];
            && ClockRunsOn(calls)
            && MemoryAnswer(90, calls, 1) == Issued(NewChallenge("a", "d", "login", 90, 10))
            && DatabaseAnswer(90, calls, 1) == Failed
  {
    var calls := [Issue("d", "login", "a", 0, 0), Issue("d", "login", "a", 10, 10)];
    assert DatabaseAt(90, calls, 1) == DatabaseStep(DatabaseAt(90, calls, 0), 90, calls[0]).0;
  }
}
