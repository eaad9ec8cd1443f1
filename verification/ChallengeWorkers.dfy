/**
 Any number of workers on one challenge database. A transaction takes the database's write lock, works
 on its own copy, and either commits it or, on an error or a crash, leaves the table as it was.
 */
module ChallengeWorkers {
  import opened ChallengeStore
  import opened Outcomes

  type Worker = nat

  /** Where a worker stands; from `Pruned` and `Locked` on it holds the lock, up to its commit. */
  datatype Pc =
    | Idle
    | Issuing(challenge: Challenge)
    | Pruned(challenge: Challenge, pruneNow: int)
    | Inserted(challenge: Challenge, pruneNow: int)
    | Consuming(nonce: Nonce, now: int)
    | Locked(nonce: Nonce, now: int)
    | Read(nonce: Nonce, now: int, found: Option<Challenge>)
    | Marked(nonce: Nonce, now: int, found: Option<Challenge>)
    | Answering(nonce: Nonce, now: int, found: Option<Challenge>, entry: nat)

  /** A committed transaction. */
  datatype Commit = IssueCommit(challenge: Challenge, pruneNow: int) | ConsumeCommit(nonce: Nonce, now: int)

  /** What a call of `consume` returned, and which committed transaction it belongs to. */
  datatype Return = Return(nonce: Nonce, now: int, result: Option<Challenge>, entry: nat)

  datatype System = System(
    pcs: map<Worker, Pc>,
    table: Table,
    lock: Option<Worker>,
    working: Table,
    log: seq<Commit>,
    answers: seq<Return>)

  const START: System := System(map[], map[], None, map[], [], [])

  function PcOf(s: System, w: Worker): Pc {
    if w in s.pcs then s.pcs[w] else Idle
  }

  /** One step of one worker; the environment chooses the step, the nonces and the clock readings. */
  datatype Action =
    | CreateChallenge(w: Worker, challenge: Challenge)
    | BeginIssue(w: Worker, pruneNow: int)
    | Insert(w: Worker)
    | CommitIssue(w: Worker)
    | CallConsume(w: Worker, nonce: Nonce, now: int)
    | BeginConsume(w: Worker)
    | Select(w: Worker)
    | Update(w: Worker)
    | CommitConsume(w: Worker)
    | Answer(w: Worker)
    | Crash(w: Worker)

  function Move(s: System, w: Worker, pc: Pc): System {
    s.(pcs := s.pcs[w := pc])
  }

  /** A worker that stops, by an error or a crash, loses its transaction. */
  function Stop(s: System, w: Worker): System {
    var s' := Move(s, w, Idle);
    if s.lock == Some(w) then s'.(lock := None, working := s.table) else s'
  }

  function Committed(s: System, w: Worker, pc: Pc, c: Commit): System {
    Move(s, w, pc).(lock := None, table := s.working, log := s.log + [c])
  }

  /** A step that is not possible leaves the system as it is. */
  function Step(s: System, a: Action): System {
    var pc := PcOf(s, a.w);
    match a
    case CreateChallenge(w, c) =>
      if pc.Idle? then Move(s, w, Issuing(c)) else s
    case BeginIssue(w, pruneNow) =>
      // The DELETE takes the write lock and runs at once.
      if pc.Issuing? && s.lock.None?
      then Move(s, w, Pruned(pc.challenge, pruneNow)).(lock := Some(w), working := Prune(s.table, pruneNow))
      else s
    case Insert(w) =>
      if !pc.Pruned? then s
      else if pc.challenge.nonce in s.working then Stop(s, w)
      else Move(s, w, Inserted(pc.challenge, pc.pruneNow))
             .(working := s.working[pc.challenge.nonce := Row(pc.challenge, None)])
    case CommitIssue(w) =>
      if pc.Inserted? then Committed(s, w, Idle, IssueCommit(pc.challenge, pc.pruneNow)) else s
    case CallConsume(w, nonce, now) =>
      if pc.Idle? then Move(s, w, Consuming(nonce, now)) else s
    case BeginConsume(w) =>
      if pc.Consuming? && s.lock.None?
      then Move(s, w, Locked(pc.nonce, pc.now)).(lock := Some(w), working := s.table)
      else s
    case Select(w) =>
      if !pc.Locked? then s
      else if Unconsumed(s.working, pc.nonce)
      then Move(s, w, Read(pc.nonce, pc.now, Some(s.working[pc.nonce].challenge)))
      else Move(s, w, Marked(pc.nonce, pc.now, None))
    case Update(w) =>
      if pc.Read?
      then Move(s, w, Marked(pc.nonce, pc.now, pc.found)).(working := MarkRow(s.working, pc.nonce, pc.now))
      else s
    case CommitConsume(w) =>
      if pc.Marked?
      then Committed(s, w, Answering(pc.nonce, pc.now, pc.found, |s.log|), ConsumeCommit(pc.nonce, pc.now))
      else s
    case Answer(w) =>
      if !pc.Answering? then s
      else
        var result := if pc.found.Some? && pc.found.value.expiresAt >= pc.now then pc.found else None;
        Move(s, w, Idle).(answers := s.answers + [Return(pc.nonce, pc.now, result, pc.entry)])
    case Crash(w) => Stop(s, w)
  }

  function Run(s: System, actions: seq<Action>): System
    decreases |actions|
  {
    if actions == [] then s else Step(Run(s, actions[..|actions| - 1]), actions[|actions| - 1])
  }

  // ------------------------------------------------------------------ the transactions one after another

  predicate Possible(t: Table, c: Commit) {
    c.IssueCommit? ==> InsertRow(t, c.challenge, c.pruneNow).Ok?
  }

  /** A transaction as one operation of the store. */
  function Apply(t: Table, c: Commit): Table {
    match c
    case IssueCommit(challenge, pruneNow) =>
      var after := InsertRow(t, challenge, pruneNow);
      if after.Ok? then after.value else t
    case ConsumeCommit(nonce, now) => MarkRow(t, nonce, now)
  }

  function Replay(log: seq<Commit>): Table {
    if log == [] then map[] else Apply(Replay(log[..|log| - 1]), log[|log| - 1])
  }

  /** The answer of the consume at place `i`, had the transactions run one after another. */
  function ResultAt(log: seq<Commit>, i: nat): Option<Challenge>
    requires i < |log| && log[i].ConsumeCommit?
  {
    ConsumeResult(Replay(log[..i]), log[i].nonce, log[i].now)
  }

  ghost predicate AllPossible(log: seq<Commit>) {
    forall i | 0 <= i < |log| :: Possible(Replay(log[..i]), log[i])
  }

  // ------------------------------------------------------------------ invariant of all interleavings

  predicate HoldsLock(pc: Pc) {
    pc.Pruned? || pc.Inserted? || pc.Locked? || pc.Read? || pc.Marked?
  }

  predicate Found(t: Table, nonce: Nonce, found: Option<Challenge>) {
    found == if Unconsumed(t, nonce) then Some(t[nonce].challenge) else None
  }

  /** What the copy of the lock's holder holds. */
  predicate CopyOf(t: Table, working: Table, pc: Pc) {
    match pc
    case Pruned(c, pruneNow) => working == Prune(t, pruneNow)
    case Inserted(c, pruneNow) => InsertRow(t, c, pruneNow) == Ok(working)
    case Locked(_, _) => working == t
    case Read(nonce, now, found) => working == t && Unconsumed(t, nonce) && Found(t, nonce, found)
    case Marked(nonce, now, found) => working == MarkRow(t, nonce, now) && Found(t, nonce, found)
    case _ => true
  }

  /** The answer fits the transaction at its place in the log. */
  predicate Fits(log: seq<Commit>, nonce: Nonce, now: int, entry: nat) {
    entry < |log| && log[entry] == ConsumeCommit(nonce, now)
  }

  ghost predicate WorkerOk(s: System, w: Worker) {
    var pc := PcOf(s, w);
    && (HoldsLock(pc) <==> s.lock == Some(w))
    && (HoldsLock(pc) ==> CopyOf(s.table, s.working, pc))
    && (pc.Answering? ==>
          Fits(s.log, pc.nonce, pc.now, pc.entry) && Found(Replay(s.log[..pc.entry]), pc.nonce, pc.found))
  }

  ghost predicate ReturnOk(log: seq<Commit>, r: Return) {
    Fits(log, r.nonce, r.now, r.entry) && r.result == ResultAt(log, r.entry)
  }

  predicate EntryIs(pc: Pc, entry: nat) {
    pc.Answering? && pc.entry == entry
  }

  /** No two answers, given or about to be given, belong to one transaction. */
  ghost predicate Separate(s: System) {
    && (forall i, j | 0 <= i < j < |s.answers| :: s.answers[i].entry != s.answers[j].entry)
    && (forall w, i | 0 <= i < |s.answers| :: !EntryIs(PcOf(s, w), s.answers[i].entry))
    && (forall v, w | v != w && PcOf(s, v).Answering? :: !EntryIs(PcOf(s, w), PcOf(s, v).entry))
  }

  ghost predicate Invariant(s: System) {
    && s.table == Replay(s.log) && AllPossible(s.log)
    && (forall w :: WorkerOk(s, w))
    && (forall r | r in s.answers :: ReturnOk(s.log, r))
    && Separate(s)
  }

  // ------------------------------------------------------------------ every step keeps it

  lemma SeparateKept(s: System, s': System)
    requires Separate(s) && s'.answers == s.answers
    requires forall v :: PcOf(s', v).Answering? ==> PcOf(s', v) == PcOf(s, v)
    ensures Separate(s')
  {
    forall w, i | 0 <= i < |s'.answers| ensures !EntryIs(PcOf(s', w), s'.answers[i].entry) {
      assert !EntryIs(PcOf(s, w), s.answers[i].entry);
    }
    forall v, w | v != w && PcOf(s', v).Answering? ensures !EntryIs(PcOf(s', w), PcOf(s', v).entry) {
      assert !EntryIs(PcOf(s, w), PcOf(s, v).entry);
    }
  }

  lemma SeparateCommit(s: System, s': System, w: Worker)
    requires Separate(s) && s'.answers == s.answers
    requires forall v | v != w :: PcOf(s', v) == PcOf(s, v)
    requires PcOf(s', w).Answering? ==> PcOf(s', w).entry == |s.log|
    requires forall i | 0 <= i < |s.answers| :: s.answers[i].entry < |s.log|
    requires forall v | PcOf(s, v).Answering? :: PcOf(s, v).entry < |s.log|
    ensures Separate(s')
  {
    forall v, i | 0 <= i < |s'.answers| ensures !EntryIs(PcOf(s', v), s'.answers[i].entry) {
      assert !EntryIs(PcOf(s, v), s.answers[i].entry);
    }
    forall u, v | u != v && PcOf(s', u).Answering? ensures !EntryIs(PcOf(s', v), PcOf(s', u).entry) {
      if u != w && v != w {
        assert !EntryIs(PcOf(s, v), PcOf(s, u).entry);
      } else if u == w {
        assert PcOf(s', v) == PcOf(s, v);
      }
    }
  }

  lemma SeparateAnswer(s: System, s': System, w: Worker, r: Return)
    requires Separate(s) && PcOf(s, w).Answering? && s'.answers == s.answers + [r] && r.entry == PcOf(s, w).entry
    requires PcOf(s', w).Idle? && forall v | v != w :: PcOf(s', v) == PcOf(s, v)
    ensures Separate(s')
  {
    forall i, j | 0 <= i < j < |s'.answers| ensures s'.answers[i].entry != s'.answers[j].entry {
      assert !EntryIs(PcOf(s, w), s.answers[i].entry);
    }
    forall v, i | 0 <= i < |s'.answers| ensures !EntryIs(PcOf(s', v), s'.answers[i].entry) {
      if v != w {
        assert i < |s.answers| ==> !EntryIs(PcOf(s, v), s.answers[i].entry);
        assert !EntryIs(PcOf(s, v), PcOf(s, w).entry);
      }
    }
    forall u, v | u != v && PcOf(s', u).Answering? ensures !EntryIs(PcOf(s', v), PcOf(s', u).entry) {
      assert !EntryIs(PcOf(s, v), PcOf(s, u).entry);
    }
  }

  /** `s'` differs from `s` in where the worker stands, and in the lock and the copy if they are its own. */
  ghost predicate OwnStep(s: System, s': System, w: Worker) {
    && s'.table == s.table && s'.log == s.log && s'.answers == s.answers
    && (forall v | v != w :: PcOf(s', v) == PcOf(s, v))
    && (s.lock.Some? && s.lock != Some(w) ==> s'.lock == s.lock && s'.working == s.working)
    && (s'.lock.Some? && s'.lock != Some(w) ==> s'.lock == s.lock)
  }

  /** A worker goes on inside its transaction, takes the free lock, gives it up, or works outside of any. */
  lemma OwnStepKeeps(s: System, s': System, w: Worker)
    requires Invariant(s) && OwnStep(s, s', w)
    requires HoldsLock(PcOf(s', w)) <==> s'.lock == Some(w)
    requires HoldsLock(PcOf(s', w)) ==> CopyOf(s.table, s'.working, PcOf(s', w))
    requires !PcOf(s', w).Answering?
    ensures Invariant(s')
  {
    hide CopyOf, Replay, AllPossible, ReturnOk, Fits, Found, Separate;
    forall v ensures WorkerOk(s', v) {
      assert WorkerOk(s, v) && WorkerOk(s, w);
    }
    SeparateKept(s, s');
  }

  lemma LogGrows(log: seq<Commit>, c: Commit)
    ensures Replay(log + [c]) == Apply(Replay(log), c)
    ensures forall i | 0 <= i <= |log| :: (log + [c])[..i] == log[..i]
  {
    assert (log + [c])[..|log|] == log;
  }

  lemma PossibleGrows(log: seq<Commit>, c: Commit)
    requires AllPossible(log) && Possible(Replay(log), c)
    ensures AllPossible(log + [c])
  {
    hide Replay, Possible;
    LogGrows(log, c);
    var log' := log + [c];
    forall i | 0 <= i < |log'| ensures Possible(Replay(log'[..i]), log'[i]) {
      assert log'[..i] == if i < |log| then log[..i] else log;
    }
  }

  lemma AnswersGrow(log: seq<Commit>, c: Commit, r: Return)
    requires ReturnOk(log, r)
    ensures ReturnOk(log + [c], r)
  {
    LogGrows(log, c);
  }

  /** A commit appends one possible transaction to the log and makes its effect the table. */
  lemma CommitKeeps(s: System, w: Worker, pc: Pc, c: Commit)
    requires Invariant(s) && HoldsLock(PcOf(s, w)) && !HoldsLock(pc)
    requires Possible(s.table, c) && s.working == Apply(s.table, c)
    requires pc.Answering? ==>
               pc.entry == |s.log| && c == ConsumeCommit(pc.nonce, pc.now) && Found(s.table, pc.nonce, pc.found)
    ensures Invariant(Committed(s, w, pc, c))
  {
    hide CopyOf, Replay, AllPossible, Possible, Apply, ReturnOk, Found, Separate;
    var s' := Committed(s, w, pc, c);
    LogGrows(s.log, c);
    PossibleGrows(s.log, c);
    assert s.log[..|s.log|] == s.log;
    forall v ensures WorkerOk(s', v) {
      assert WorkerOk(s, v) && WorkerOk(s, w);
    }
    forall r | r in s'.answers ensures ReturnOk(s'.log, r) {
      AnswersGrow(s.log, c, r);
    }
    EntriesBelow(s);
    SeparateCommit(s, s', w);
  }

  lemma EntriesBelow(s: System)
    requires Invariant(s)
    ensures forall i | 0 <= i < |s.answers| :: s.answers[i].entry < |s.log|
    ensures forall w | PcOf(s, w).Answering? :: PcOf(s, w).entry < |s.log|
  {
    forall i | 0 <= i < |s.answers| ensures s.answers[i].entry < |s.log| {
      assert ReturnOk(s.log, s.answers[i]);
    }
    forall w | PcOf(s, w).Answering? ensures PcOf(s, w).entry < |s.log| {
      assert WorkerOk(s, w);
    }
  }

  lemma AnswerKeeps(s: System, w: Worker)
    requires Invariant(s) && PcOf(s, w).Answering?
    ensures Invariant(Step(s, Answer(w)))
  {
    hide CopyOf, Replay, AllPossible, Unconsumed, Separate;
    var s', pc := Step(s, Answer(w)), PcOf(s, w);
    assert WorkerOk(s, w);
    forall v ensures WorkerOk(s', v) {
      assert WorkerOk(s, v);
    }
    forall r | r in s'.answers ensures ReturnOk(s'.log, r) {
      assert r in s.answers ==> ReturnOk(s.log, r);
    }
    SeparateAnswer(s, s', w, s'.answers[|s.answers|]);
  }

  /** Every step of every worker keeps the invariant. */
  lemma StepKeeps(s: System, a: Action)
    requires Invariant(s)
    ensures Invariant(Step(s, a))
  {
    hide Invariant, Prune, MarkRow, Unconsumed, Replay;
    var w, pc, s' := a.w, PcOf(s, a.w), Step(s, a);
    HolderIsRight(s, w);
    if a.CommitIssue? && pc.Inserted? {
      CommitKeeps(s, w, Idle, IssueCommit(pc.challenge, pc.pruneNow));
    } else if a.CommitConsume? && pc.Marked? {
      CommitKeeps(s, w, Answering(pc.nonce, pc.now, pc.found, |s.log|), ConsumeCommit(pc.nonce, pc.now));
    } else if a.Answer? && pc.Answering? {
      AnswerKeeps(s, w);
    } else if a.Select? {
      SelectKeeps(s, w);
    } else if s' != s {
      OwnStepKeeps(s, s', w);
    }
  }

  lemma HolderIsRight(s: System, w: Worker)
    requires Invariant(s)
    ensures HoldsLock(PcOf(s, w)) <==> s.lock == Some(w)
    ensures HoldsLock(PcOf(s, w)) ==> CopyOf(s.table, s.working, PcOf(s, w))
  {
    assert WorkerOk(s, w);
  }

  lemma SelectKeeps(s: System, w: Worker)
    requires Invariant(s)
    ensures Invariant(Step(s, Select(w)))
  {
    hide Invariant, Replay;
    HolderIsRight(s, w);
    if PcOf(s, w).Locked? {
      OwnStepKeeps(s, Step(s, Select(w)), w);
    }
  }

  lemma {:induction false} RunKeeps(actions: seq<Action>)
    ensures Invariant(Run(START, actions))
    decreases |actions|
  {
    if actions != [] {
      RunKeeps(actions[..|actions| - 1]);
      StepKeeps(Run(START, actions[..|actions| - 1]), actions[|actions| - 1]);
    } else {
      StartIsFine();
    }
  }

  lemma StartIsFine()
    ensures Invariant(START)
  {
  }

  // ------------------------------------------------------------------ one nonce in the log

  /** From a successful consume on, the nonce's row is consumed or gone until the nonce is issued again. */
  lemma {:induction false} StaysConsumed(log: seq<Commit>, i: nat, k: nat)
    requires i < k <= |log| && log[i].ConsumeCommit?
    requires forall m | i < m < k :: log[m].IssueCommit? ==> log[m].challenge.nonce != log[i].nonce
    ensures !Unconsumed(Replay(log[..k]), log[i].nonce)
    decreases k
  {
    assert log[..k][..k - 1] == log[..k - 1] && log[..k][k - 1] == log[k - 1];
    if k > i + 1 {
      StaysConsumed(log, i, k - 1);
    }
  }

  /** Between two successful consumes of one nonce a transaction has issued it again. */
  lemma IssuedInBetween(log: seq<Commit>, i: nat, j: nat)
    requires i < j < |log| && log[i].ConsumeCommit? && log[j].ConsumeCommit? && log[i].nonce == log[j].nonce
    requires ResultAt(log, j).Some?
    ensures exists m :: i < m < j && log[m].IssueCommit? && log[m].challenge.nonce == log[j].nonce
  {
    hide Replay;
    if forall m | i < m < j :: log[m].IssueCommit? ==> log[m].challenge.nonce != log[i].nonce {
      StaysConsumed(log, i, j);
    }
  }

  /** The last transaction that issued a nonce, or -1. */
  function LastIssue(log: seq<Commit>, n: Nonce): (m: int)
    ensures -1 <= m < |log|
    ensures m >= 0 ==> log[m].IssueCommit? && log[m].challenge.nonce == n
    ensures forall k | m < k < |log| :: log[k].IssueCommit? ==> log[k].challenge.nonce != n
    decreases |log|
  {
    if log == [] then -1
    else
      var last := log[|log| - 1];
      if last.IssueCommit? && last.challenge.nonce == n then |log| - 1 else LastIssue(log[..|log| - 1], n)
  }

  /** Every row holds the challenge that was issued last for its nonce. */
  lemma {:induction false} RowIsLatest(log: seq<Commit>, n: Nonce)
    requires AllPossible(log) && n in Replay(log)
    ensures LastIssue(log, n) >= 0 && Replay(log)[n].challenge == log[LastIssue(log, n)].challenge
    decreases |log|
  {
    var front, last := log[..|log| - 1], log[|log| - 1];
    assert Possible(Replay(log[..|log| - 1]), last);
    if !(last.IssueCommit? && last.challenge.nonce == n) {
      forall i | 0 <= i < |front| ensures Possible(Replay(front[..i]), front[i]) {
        assert front[..i] == log[..i] && Possible(Replay(log[..i]), log[i]);
      }
      RowIsLatest(front, n);
    }
  }

  /** The transaction that issued what the consume at place `i` returned. */
  function Origin(log: seq<Commit>, i: nat): int
    requires i < |log| && log[i].ConsumeCommit?
  {
    LastIssue(log[..i], log[i].nonce)
  }

  lemma PossibleBefore(log: seq<Commit>, i: nat)
    requires AllPossible(log) && i <= |log|
    ensures AllPossible(log[..i])
  {
    hide Replay, Possible;
    forall k | 0 <= k < i ensures Possible(Replay(log[..i][..k]), log[..i][k]) {
      assert log[..i][..k] == log[..k] && Possible(Replay(log[..k]), log[k]);
    }
  }

  /** What a consume returns is what its origin issued. */
  lemma OriginIssued(log: seq<Commit>, i: nat)
    requires AllPossible(log) && i < |log| && log[i].ConsumeCommit? && ResultAt(log, i).Some?
    ensures 0 <= Origin(log, i) < i && log[Origin(log, i)] == log[..i][Origin(log, i)]
    ensures log[Origin(log, i)].IssueCommit? && log[Origin(log, i)].challenge == ResultAt(log, i).value
    ensures ResultAt(log, i).value.nonce == log[i].nonce && log[i].now <= ResultAt(log, i).value.expiresAt
  {
    hide Replay, AllPossible;
    PossibleBefore(log, i);
    RowIsLatest(log[..i], log[i].nonce);
  }

  /** Different successful consumes have different origins, whatever nonces were used again. */
  lemma OriginsDiffer(log: seq<Commit>, i: nat, j: nat)
    requires AllPossible(log) && i < j < |log| && log[i].ConsumeCommit? && log[j].ConsumeCommit?
    requires ResultAt(log, i).Some? && ResultAt(log, j).Some?
    ensures Origin(log, i) != Origin(log, j)
  {
    hide Replay, AllPossible, ResultAt;
    OriginIssued(log, i);
    OriginIssued(log, j);
    if log[i].nonce == log[j].nonce {
      IssuedInBetween(log, i, j);
      var m :| i < m < j && log[m].IssueCommit? && log[m].challenge.nonce == log[j].nonce;
      assert log[..j][m] == log[m];
    }
  }

  // ------------------------------------------------------------------ nothing blocks

  /** A worker that nobody interrupts issues its challenge, or leaves no trace where the insert is refused. */
  lemma IssueCompletes(s: System, w: Worker, c: Challenge, pruneNow: int)
    requires PcOf(s, w).Idle? && s.lock.None?
    ensures var s1 := Step(s, CreateChallenge(w, c));
            var s2 := Step(s1, BeginIssue(w, pruneNow));
            var s3 := Step(s2, Insert(w));
            var s4 := Step(s3, CommitIssue(w));
            var after := InsertRow(s.table, c, pruneNow);
            && PcOf(s4, w).Idle? && s4.lock.None? && s4.answers == s.answers
            && (if after.Ok? then s4.table == after.value && s4.log == s.log + [IssueCommit(c, pruneNow)]
                else s4.table == s.table && s4.log == s.log)
  {
  }

  /** Likewise a consume returns what the row says, and uses the row up. */
  lemma ConsumeCompletes(s: System, w: Worker, n: Nonce, now: int)
    requires PcOf(s, w).Idle? && s.lock.None?
    ensures var s1 := Step(s, CallConsume(w, n, now));
            var s2 := Step(s1, BeginConsume(w));
            var s3 := Step(s2, Select(w));
            var s4 := Step(s3, Update(w));
            var s5 := Step(s4, CommitConsume(w));
            var s6 := Step(s5, Answer(w));
            && PcOf(s6, w).Idle? && s6.lock.None?
            && s6.table == MarkRow(s.table, n, now) && s6.log == s.log + [ConsumeCommit(n, now)]
            && s6.answers == s.answers + [Return(n, now, ConsumeResult(s.table, n, now), |s.log|)]
  {
    var s3 := Step(Step(Step(s, CallConsume(w, n, now)), BeginConsume(w)), Select(w));
    ConsumeReads(s, w, n, now);
    hide Step;
    ConsumeCommits(s3, w, n, now);
  }

  lemma ConsumeReads(s: System, w: Worker, n: Nonce, now: int)
    requires PcOf(s, w).Idle? && s.lock.None?
    ensures var s3 := Step(Step(Step(s, CallConsume(w, n, now)), BeginConsume(w)), Select(w));
            && HasRead(s3, w, n, now) && s3.table == s.table && s3.log == s.log && s3.answers == s.answers
  {
  }

  /** The worker has the lock, and knows whether the nonce's row can be used up. */
  predicate HasRead(s: System, w: Worker, n: Nonce, now: int) {
    && s.lock == Some(w) && s.working == s.table
    && PcOf(s, w) == if Unconsumed(s.table, n) then Read(n, now, Some(s.table[n].challenge)) else Marked(n, now, None)
  }

  lemma ConsumeCommits(s: System, w: Worker, n: Nonce, now: int)
    requires HasRead(s, w, n, now)
    ensures var s' := Step(Step(Step(s, Update(w)), CommitConsume(w)), Answer(w));
            && PcOf(s', w).Idle? && s'.lock.None?
            && s'.table == MarkRow(s.table, n, now) && s'.log == s.log + [ConsumeCommit(n, now)]
            && s'.answers == s.answers + [Return(n, now, ConsumeResult(s.table, n, now), |s.log|)]
  {
  }

  // ------------------------------------------------------------------ what every run guarantees

  /**
   Whatever the workers do and wherever they crash, the table is what the committed transactions make
   of it one after another, and each answer is the one its transaction would have given then.
   */
  lemma Serializable(actions: seq<Action>)
    ensures var s := Run(START, actions);
            && s.table == Replay(s.log) && AllPossible(s.log)
            && forall i | 0 <= i < |s.answers| :: ReturnOk(s.log, s.answers[i])
  {
    RunKeeps(actions);
  }

  /** A returned challenge was issued for the nonce asked for, and the clock read was not past its expiry. */
  lemma ReturnedInTime(actions: seq<Action>, i: nat)
    requires i < |Run(START, actions).answers| && Run(START, actions).answers[i].result.Some?
    ensures var s := Run(START, actions);
            var r := s.answers[i];
            && r.result.value.nonce == r.nonce && r.now <= r.result.value.expiresAt
            && exists m :: 0 <= m < r.entry < |s.log| && s.log[m].IssueCommit? && s.log[m].challenge == r.result.value
  {
    hide Run, Replay, AllPossible, ResultAt;
    Serializable(actions);
    OriginIssued(Run(START, actions).log, Run(START, actions).answers[i].entry);
  }

  /**
   Single use: two answers that returned a challenge for the same nonce belong to different
   transactions, and the nonce was issued again between them.
   */
  lemma SingleUse(actions: seq<Action>, i: nat, j: nat)
    requires var a := Run(START, actions).answers;
             i < |a| && j < |a| && i != j && a[i].nonce == a[j].nonce && a[i].result.Some? && a[j].result.Some?
    ensures var s := Run(START, actions);
            var inOrder := s.answers[i].entry < s.answers[j].entry;
            var lo, hi := if inOrder then i else j, if inOrder then j else i;
            && s.answers[lo].entry < s.answers[hi].entry < |s.log|
            && exists m :: s.answers[lo].entry < m < s.answers[hi].entry
                           && s.log[m].IssueCommit? && s.log[m].challenge.nonce == s.answers[i].nonce
  {
    hide Run, Replay, ResultAt;
    RunKeeps(actions);
    var s := Run(START, actions);
    assert ReturnOk(s.log, s.answers[i]) && ReturnOk(s.log, s.answers[j]);
    assert s.answers[i].entry != s.answers[j].entry;
    if s.answers[i].entry < s.answers[j].entry {
      IssuedInBetween(s.log, s.answers[i].entry, s.answers[j].entry);
    } else {
      IssuedInBetween(s.log, s.answers[j].entry, s.answers[i].entry);
    }
  }

  ghost predicate DistinctNonces(log: seq<Commit>) {
    forall i, j | 0 <= i < j < |log| && log[i].IssueCommit? && log[j].IssueCommit? ::
      log[i].challenge.nonce != log[j].challenge.nonce
  }

  /** When no nonce is issued twice, no nonce is ever returned twice. */
  lemma AtMostOnce(actions: seq<Action>, i: nat, j: nat)
    requires DistinctNonces(Run(START, actions).log)
    requires var a := Run(START, actions).answers;
             i < |a| && j < |a| && i != j && a[i].result.Some? && a[j].result.Some?
    ensures Run(START, actions).answers[i].nonce != Run(START, actions).answers[j].nonce
  {
    hide Run;
    var s := Run(START, actions);
    if s.answers[i].nonce == s.answers[j].nonce {
      var lo := if s.answers[i].entry < s.answers[j].entry then i else j;
      SingleUse(actions, i, j);
      ReturnedInTime(actions, lo);
      assert false;
    }
  }
}
