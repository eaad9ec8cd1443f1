/**
 The table of linked identities: what its transactions do, and what every sequence of them keeps.
 The clock is a parameter; an account has any number of identities, and a public key has one owner.
 */
module Mappings {
  import opened Outcomes

  type Username = string
  type Pubkey = string

  datatype Identity = Identity(
    id: nat,
    username: Username,
    pubkey: Pubkey,
    createdAt: int,
    lastUsed: Option<int>,
    enabled: bool,
    signerType: string,
    caption: Option<string>,
    linkedBy: string,
    revokedAt: Option<int>)

  /** What the caller says about a new identity. */
  datatype Details = Details(signerType: string, caption: Option<string>, linkedBy: string)

  /** A row of the table of the first release, which had one row per user. */
  datatype Legacy = Legacy(username: Username, pubkey: Pubkey, createdAt: int, lastUsed: Option<int>, enabled: bool)

  /** The rows by identity id, the highest id ever handed out, and the version of the schema. */
  datatype Database = Database(rows: map<nat, Identity>, lastId: nat, version: int)

  const MIGRATED: int := 1

  /** What the schema fills in for rows copied from the old table. */
  const LEGACY_DETAILS: Details := Details("unknown", None, "self-service")

  predicate Taken(rows: map<nat, Identity>, pubkey: Pubkey) {
    exists id | id in rows :: rows[id].pubkey == pubkey
  }

  predicate HasEnabled(rows: map<nat, Identity>, pubkey: Pubkey) {
    exists id | id in rows :: rows[id].pubkey == pubkey && rows[id].enabled
  }

  predicate OwnedBy(rows: map<nat, Identity>, pubkey: Pubkey, user: Username) {
    exists id | id in rows :: rows[id].pubkey == pubkey && rows[id].username == user
  }

  predicate OwnedByOther(rows: map<nat, Identity>, pubkey: Pubkey, user: Username) {
    exists id | id in rows :: rows[id].pubkey == pubkey && rows[id].username != user
  }

  // ------------------------------------------------------------------ statements

  function DeleteUser(db: Database, user: Username): Database {
    db.(rows := map id | id in db.rows && db.rows[id].username != user :: db.rows[id])
  }

  function NewIdentity(id: nat, user: Username, pubkey: Pubkey, now: int, lastUsed: Option<int>, enabled: bool,
                       d: Details): Identity
  {
    Identity(id, user, pubkey, now, lastUsed, enabled, d.signerType, d.caption, d.linkedBy, None)
  }

  /** A row as linking makes it. */
  predicate IsLinked(r: Identity, id: nat, user: Username, pubkey: Pubkey, now: int, d: Details) {
    && r.id == id && r.username == user && r.pubkey == pubkey && r.createdAt == now && r.lastUsed.None? && r.enabled
    && r.signerType == d.signerType && r.caption == d.caption && r.linkedBy == d.linkedBy && r.revokedAt.None?
  }

  /** The rows without those of a user. */
  ghost predicate WithoutUser(before: map<nat, Identity>, after: map<nat, Identity>, user: Username) {
    && (forall id :: id in after <==> id in before && before[id].username != user)
    && (forall id | id in after :: after[id] == before[id])
  }

  /** INSERT: the UNIQUE constraint refuses a key that is taken; the id is one that was never used. */
  function Insert(db: Database, user: Username, pubkey: Pubkey, now: int, lastUsed: Option<int>, enabled: bool,
                  d: Details): Result<Database>
  {
    if Taken(db.rows, pubkey) then Thrown
    else
      var id := db.lastId + 1;
      Ok(db.(rows := db.rows[id := NewIdentity(id, user, pubkey, now, lastUsed, enabled, d)], lastId := id))
  }

  /** INSERT OR IGNORE, row by row. */
  function InsertLegacy(db: Database, users: seq<Legacy>): Database
    decreases |users|
  {
    if users == [] then db
    else
      var u := users[0];
      var after := Insert(db, u.username, u.pubkey, u.createdAt, u.lastUsed, u.enabled, LEGACY_DETAILS);
      InsertLegacy(if after.Ok? then after.value else db, users[1..])
  }

  lemma LegacyFirst(db: Database, users: seq<Legacy>)
    ensures users == [] ==> InsertLegacy(db, users) == db
    ensures users != [] ==>
              var u := users[0];
              var after := Insert(db, u.username, u.pubkey, u.createdAt, u.lastUsed, u.enabled, LEGACY_DETAILS);
              InsertLegacy(db, users) == InsertLegacy(if after.Ok? then after.value else db, users[1..])
  {
    hide Insert;
  }

  // ------------------------------------------------------------------ transactions

  /**
   A committed write; reading before it happens outside the transaction. What `link`, `add_identity` and
   an opening have read may be outdated by then; `checked` is the version that the opening has read.
   */
  datatype Transaction =
    | Replace(user: Username, pubkey: Pubkey, now: int, details: Details)
    | Add(user: Username, pubkey: Pubkey, now: int, details: Details)
    | Unlink(user: Username)
    | Revoke(id: nat, user: Username, now: int)
    | Rename(id: nat, user: Username, caption: Option<string>)
    | Touch(id: nat, now: int)
    | TouchUser(user: Username, now: int)
    | Open(checked: int, legacy: Option<seq<Legacy>>)

  predicate IsActive(db: Database, id: nat, user: Username) {
    id in db.rows && db.rows[id].username == user && db.rows[id].enabled
  }

  /** The table after a transaction; one that fails is rolled back. */
  function Apply(db: Database, t: Transaction): Database {
    match t
    case Replace(user, pubkey, now, d) =>
      var after := Insert(DeleteUser(db, user), user, pubkey, now, None, true, d);
      if after.Ok? then after.value else db
    case Add(user, pubkey, now, d) =>
      var after := Insert(db, user, pubkey, now, None, true, d);
      if after.Ok? then after.value else db
    case Unlink(user) => DeleteUser(db, user)
    case Revoke(id, user, now) =>
      if IsActive(db, id, user) then db.(rows := db.rows[id := db.rows[id].(enabled := false, revokedAt := Some(now))]) else db
    case Rename(id, user, caption) =>
      if IsActive(db, id, user) then db.(rows := db.rows[id := db.rows[id].(caption := caption)]) else db
    case Touch(id, now) =>
      if id in db.rows && db.rows[id].enabled then db.(rows := db.rows[id := db.rows[id].(lastUsed := Some(now))]) else db
    case TouchUser(user, now) =>
      db.(rows := map id | id in db.rows :: if IsActive(db, id, user) then db.rows[id].(lastUsed := Some(now)) else db.rows[id])
    case Open(checked, legacy) =>
      if checked >= MIGRATED then db
      else (if legacy.Some? then InsertLegacy(db, legacy.value) else db).(version := MIGRATED)
  }

  // ------------------------------------------------------------------ what a table always satisfies

  ghost predicate Valid(db: Database) {
    && (forall id | id in db.rows :: db.rows[id].id == id && 0 < id <= db.lastId)
    && (forall i, j | i in db.rows && j in db.rows && i != j :: db.rows[i].pubkey != db.rows[j].pubkey)
  }

  /** How rows may differ between an earlier and a later table. */
  ghost predicate Evolves(before: Database, after: Database) {
    && before.lastId <= after.lastId && (before.version >= MIGRATED ==> after.version >= MIGRATED)
    && forall id | id in after.rows ::
         if id in before.rows then SameIdentity(before.rows[id], after.rows[id]) else id > before.lastId
  }

  /** Owner, key and date never change, and what was disabled stays as it was when it was disabled. */
  predicate SameIdentity(r: Identity, s: Identity) {
    && s.username == r.username && s.pubkey == r.pubkey && s.createdAt == r.createdAt
    && s.signerType == r.signerType && s.linkedBy == r.linkedBy
    && (!r.enabled ==> s == r)
  }

  lemma InsertKeeps(db: Database, user: Username, pubkey: Pubkey, now: int, lastUsed: Option<int>, enabled: bool, d: Details)
    requires Valid(db)
    ensures var after := Insert(db, user, pubkey, now, lastUsed, enabled, d);
            after.Ok? ==> Valid(after.value) && Evolves(db, after.value)
  {
  }

  lemma DeleteKeeps(db: Database, user: Username)
    requires Valid(db)
    ensures Valid(DeleteUser(db, user)) && Evolves(db, DeleteUser(db, user))
  {
  }

  lemma EvolvesOn(a: Database, b: Database, c: Database)
    requires Valid(a) && Evolves(a, b) && Evolves(b, c)
    ensures Evolves(a, c)
  {
  }

  lemma {:induction false} LegacyKeeps(db: Database, users: seq<Legacy>)
    requires Valid(db)
    ensures Valid(InsertLegacy(db, users)) && Evolves(db, InsertLegacy(db, users))
    ensures InsertLegacy(db, users).version == db.version
    decreases |users|
  {
    hide Valid, Evolves;
    if users != [] {
      var u := users[0];
      var d := LEGACY_DETAILS;
      InsertKeeps(db, u.username, u.pubkey, u.createdAt, u.lastUsed, u.enabled, d);
      var after := Insert(db, u.username, u.pubkey, u.createdAt, u.lastUsed, u.enabled, d);
      var next := if after.Ok? then after.value else db;
      LegacyKeeps(next, users[1..]);
      if after.Ok? {
        EvolvesOn(db, next, InsertLegacy(next, users[1..]));
      }
    } else {
      NothingChanges(db);
    }
  }

  lemma NothingChanges(db: Database)
    ensures Evolves(db, db)
  {
  }

  lemma VersionSet(before: Database, after: Database)
    requires Valid(after) && Evolves(before, after)
    ensures Valid(after.(version := MIGRATED)) && Evolves(before, after.(version := MIGRATED))
  {
  }

  /** An UPDATE that leaves the identity of every row alone. */
  lemma UpdateKeeps(db: Database, rows: map<nat, Identity>)
    requires Valid(db) && rows.Keys == db.rows.Keys
    requires forall id | id in db.rows :: rows[id].id == id && SameIdentity(db.rows[id], rows[id])
    ensures Valid(db.(rows := rows)) && Evolves(db, db.(rows := rows))
  {
  }

  lemma OpenKeeps(db: Database, checked: int, legacy: Option<seq<Legacy>>)
    requires Valid(db)
    ensures Valid(Apply(db, Open(checked, legacy))) && Evolves(db, Apply(db, Open(checked, legacy)))
  {
    hide Valid, Evolves;
    NothingChanges(db);
    if checked < MIGRATED {
      var users := if legacy.Some? then legacy.value else [];
      LegacyKeeps(db, users);
      VersionSet(db, InsertLegacy(db, users));
    }
  }

  /** Every transaction keeps the table valid, and changes rows only as far as they may change. */
  lemma TransactionKeeps(db: Database, t: Transaction)
    requires Valid(db)
    ensures Valid(Apply(db, t)) && Evolves(db, Apply(db, t))
  {
    if t.Open? {
      OpenKeeps(db, t.checked, t.legacy);
    } else if t.Replace? {
      hide Valid, Evolves, Insert, DeleteUser;
      NothingChanges(db);
      DeleteKeeps(db, t.user);
      InsertKeeps(DeleteUser(db, t.user), t.user, t.pubkey, t.now, None, true, t.details);
      var after := Insert(DeleteUser(db, t.user), t.user, t.pubkey, t.now, None, true, t.details);
      if after.Ok? {
        EvolvesOn(db, DeleteUser(db, t.user), after.value);
      }
    } else if t.Add? {
      hide Valid, Evolves, Insert;
      NothingChanges(db);
      InsertKeeps(db, t.user, t.pubkey, t.now, None, true, t.details);
    } else if t.Unlink? {
      DeleteKeeps(db, t.user);
    } else {
      ChangeKeeps(db, t);
    }
  }

  lemma ChangeKeeps(db: Database, t: Transaction)
    requires Valid(db) && (t.Revoke? || t.Rename? || t.Touch? || t.TouchUser?)
    ensures Valid(Apply(db, t)) && Evolves(db, Apply(db, t))
  {
    hide Evolves;
    UpdateKeeps(db, Apply(db, t).rows);
    assert Apply(db, t) == db.(rows := Apply(db, t).rows);
  }

  function Run(db: Database, ts: seq<Transaction>): Database
    decreases |ts|
  {
    if ts == [] then db else Apply(Run(db, ts[..|ts| - 1]), ts[|ts| - 1])
  }

  const EMPTY: Database := Database(map[], 0, 0)

  lemma {:induction false} RunKeeps(db: Database, ts: seq<Transaction>)
    requires Valid(db)
    ensures Valid(Run(db, ts)) && Evolves(db, Run(db, ts))
    decreases |ts|
  {
    hide Valid, Evolves;
    if ts == [] {
      NothingChanges(db);
    } else {
      var front := ts[..|ts| - 1];
      RunKeeps(db, front);
      TransactionKeeps(Run(db, front), ts[|ts| - 1]);
      EvolvesOn(db, Run(db, front), Run(db, ts));
    }
  }

  lemma {:induction false} RunInParts(db: Database, ts: seq<Transaction>, us: seq<Transaction>)
    ensures Run(db, ts + us) == Run(Run(db, ts), us)
    decreases |us|
  {
    if us == [] {
      assert ts + us == ts;
    } else {
      RunInParts(db, ts, us[..|us| - 1]);
      assert (ts + us)[..|ts + us| - 1] == ts + us[..|us| - 1];
    }
  }

  // ------------------------------------------------------------------ over whole runs

  /** In every reachable table a key has one row, and no id is above the highest handed out. */
  lemma Reachable(ts: seq<Transaction>)
    ensures Valid(Run(EMPTY, ts))
  {
    RunKeeps(EMPTY, ts);
  }

  /** An id that was handed out and is gone never comes back. */
  lemma IdsAreNotReused(ts: seq<Transaction>, us: seq<Transaction>, id: nat)
    requires id <= Run(EMPTY, ts).lastId && id !in Run(EMPTY, ts).rows
    ensures id !in Run(EMPTY, ts + us).rows
  {
    RunInParts(EMPTY, ts, us);
    RunKeeps(EMPTY, ts);
    RunKeeps(Run(EMPTY, ts), us);
  }

  /** A revoked identity is never enabled again: as long as its row exists it stays as it is. */
  lemma RevokedStaysRevoked(ts: seq<Transaction>, us: seq<Transaction>, id: nat)
    requires id in Run(EMPTY, ts).rows && !Run(EMPTY, ts).rows[id].enabled
    ensures id in Run(EMPTY, ts + us).rows ==> Run(EMPTY, ts + us).rows[id] == Run(EMPTY, ts).rows[id]
  {
    RunInParts(EMPTY, ts, us);
    RunKeeps(EMPTY, ts);
    RunKeeps(Run(EMPTY, ts), us);
  }

  /**
   Once an opening has committed, every opening that begins changes nothing, whatever the old table holds
   and whatever others do between its check and its transaction.
   */
  lemma ReopeningChangesNothing(db: Database, us: seq<Transaction>, vs: seq<Transaction>, legacy: Option<seq<Legacy>>)
    requires Valid(db) && db.version >= MIGRATED
    ensures var read := Run(db, us);
            var now := Run(read, vs);
            Apply(now, Open(read.version, legacy)) == now
  {
    RunKeeps(db, us);
  }

  /** An opening that has committed, on whatever it had read before, leaves the version that later ones find. */
  lemma OpeningCommits(read: Database, us: seq<Transaction>, legacy: Option<seq<Legacy>>)
    requires Valid(read)
    ensures Apply(Run(read, us), Open(read.version, legacy)).version >= MIGRATED
  {
    hide Valid;
    RunKeeps(read, us);
  }

  // ------------------------------------------------------------------ where keys come from

  /** The transactions that may bring a key into the table. */
  predicate Introduces(t: Transaction, pubkey: Pubkey) {
    match t
    case Replace(_, p, _, _) => p == pubkey
    case Add(_, p, _, _) => p == pubkey
    case Open(checked, legacy) => checked < MIGRATED && legacy.Some? && exists u :: u in legacy.value && u.pubkey == pubkey
    case _ => false
  }

  ghost predicate Brought(us: seq<Transaction>, pubkey: Pubkey) {
    exists k :: 0 <= k < |us| && Introduces(us[k], pubkey)
  }

  /** The dates that a transaction may put on a new row. */
  predicate Dates(t: Transaction, date: int) {
    match t
    case Replace(_, _, now, _) => date == now
    case Add(_, _, now, _) => date == now
    case Open(checked, legacy) => checked < MIGRATED && legacy.Some? && exists u :: u in legacy.value && u.createdAt == date
    case _ => false
  }

  lemma {:induction false} LegacyRow(db: Database, users: seq<Legacy>, id: nat) returns (u: Legacy)
    requires Valid(db) && id in InsertLegacy(db, users).rows && id !in db.rows
    ensures var row := InsertLegacy(db, users).rows[id];
            u in users && row.pubkey == u.pubkey && row.createdAt == u.createdAt
    decreases |users|
  {
    u := users[0];
    var d := LEGACY_DETAILS;
    InsertKeeps(db, u.username, u.pubkey, u.createdAt, u.lastUsed, u.enabled, d);
    var after := Insert(db, u.username, u.pubkey, u.createdAt, u.lastUsed, u.enabled, d);
    var next := if after.Ok? then after.value else db;
    if id in next.rows {
      LegacyAdds(next, users[1..]);
    } else {
      u := LegacyRow(next, users[1..], id);
    }
  }

  /** A row as the migration copies it. */
  predicate IsCopy(row: Identity, u: Legacy) {
    && row.username == u.username && row.pubkey == u.pubkey && row.createdAt == u.createdAt
    && row.lastUsed == u.lastUsed && row.enabled == u.enabled
    && row.signerType == "unknown" && row.caption.None? && row.linkedBy == "self-service" && row.revokedAt.None?
  }

  /**
   What copying the old table does: the rows there stay, every new row is a copy of an old one, and of the
   old ones exactly those are copied whose key is not taken, nor that of one before it.
   */
  ghost predicate Migrated(before: map<nat, Identity>, after: map<nat, Identity>, users: seq<Legacy>) {
    && (forall id | id in before :: id in after && after[id] == before[id])
    && (forall id | id in after && id !in before :: exists u :: u in users && IsCopy(after[id], u))
    && (forall i | 0 <= i < |users| :: FirstOf(before, users, i) ==>
          exists id :: id in after && id !in before && IsCopy(after[id], users[i]))
  }

  ghost predicate FirstOf(before: map<nat, Identity>, users: seq<Legacy>, i: nat)
    requires i < |users|
  {
    !Taken(before, users[i].pubkey) && forall j | 0 <= j < i :: users[j].pubkey != users[i].pubkey
  }

  lemma {:induction false} CopyMigrates(db: Database, users: seq<Legacy>)
    requires Valid(db)
    ensures Migrated(db.rows, InsertLegacy(db, users).rows, users)
    decreases |users|
  {
    hide IsCopy;
    LegacyAdds(db, users);
    var after := InsertLegacy(db, users);
    forall id | id in after.rows && id !in db.rows ensures exists u :: u in users && IsCopy(after.rows[id], u) {
      CopiedFrom(db, users, id);
    }
    forall i | 0 <= i < |users| && FirstOf(db.rows, users, i)
      ensures exists id :: id in after.rows && id !in db.rows && IsCopy(after.rows[id], users[i])
    {
      CopiedTo(db, users, i);
    }
  }

  lemma {:induction false} CopiedFrom(db: Database, users: seq<Legacy>, id: nat)
    requires Valid(db) && id in InsertLegacy(db, users).rows && id !in db.rows
    ensures exists u :: u in users && IsCopy(InsertLegacy(db, users).rows[id], u)
    decreases |users|
  {
    var u := users[0];
    var d := LEGACY_DETAILS;
    InsertKeeps(db, u.username, u.pubkey, u.createdAt, u.lastUsed, u.enabled, d);
    var after := Insert(db, u.username, u.pubkey, u.createdAt, u.lastUsed, u.enabled, d);
    var next := if after.Ok? then after.value else db;
    if id in next.rows {
      LegacyAdds(next, users[1..]);
      assert IsCopy(InsertLegacy(db, users).rows[id], users[0]);
    } else {
      CopiedFrom(next, users[1..], id);
    }
  }

  lemma {:induction false} CopiedTo(db: Database, users: seq<Legacy>, i: nat)
    requires Valid(db) && i < |users| && FirstOf(db.rows, users, i)
    ensures exists id :: id in InsertLegacy(db, users).rows && id !in db.rows && IsCopy(InsertLegacy(db, users).rows[id], users[i])
    decreases |users|
  {
    var u := users[0];
    var d := LEGACY_DETAILS;
    InsertKeeps(db, u.username, u.pubkey, u.createdAt, u.lastUsed, u.enabled, d);
    var after := Insert(db, u.username, u.pubkey, u.createdAt, u.lastUsed, u.enabled, d);
    var next := if after.Ok? then after.value else db;
    if i == 0 {
      LegacyAdds(next, users[1..]);
      assert after.Ok? && db.lastId + 1 in next.rows;
      assert IsCopy(InsertLegacy(db, users).rows[db.lastId + 1], users[0]);
    } else {
      assert FirstOf(next.rows, users[1..], i - 1) by {
        forall j | 0 <= j < i - 1 ensures users[1..][j].pubkey != users[1..][i - 1].pubkey {
          assert users[j + 1].pubkey != users[i].pubkey;
        }
      }
      CopiedTo(next, users[1..], i - 1);
      var id :| id in InsertLegacy(next, users[1..]).rows && id !in next.rows
                && IsCopy(InsertLegacy(next, users[1..]).rows[id], users[1..][i - 1]);
      assert id in InsertLegacy(db, users).rows && id !in db.rows && IsCopy(InsertLegacy(db, users).rows[id], users[i]);
    }
  }

  /** A key that the old table had disabled, or did not have, is not enabled by the migration. */
  lemma MigrationEnablesNone(before: map<nat, Identity>, after: map<nat, Identity>, users: seq<Legacy>, pubkey: Pubkey)
    requires Migrated(before, after, users) && !HasEnabled(before, pubkey)
    requires forall u | u in users && u.pubkey == pubkey :: !u.enabled
    ensures !HasEnabled(after, pubkey)
  {
    forall id | id in after && after[id].pubkey == pubkey ensures !after[id].enabled {
      if id in before {
        assert after[id] == before[id];
      } else {
        var u :| u in users && IsCopy(after[id], u);
      }
    }
  }

  /** A new row has a key and a date that the transaction brought in. */
  lemma NewRow(db: Database, t: Transaction, id: nat)
    requires Valid(db) && id in Apply(db, t).rows && id !in db.rows
    ensures Introduces(t, Apply(db, t).rows[id].pubkey) && Dates(t, Apply(db, t).rows[id].createdAt)
  {
    if t.Open? {
      var u := LegacyRow(db, t.legacy.value, id);
    }
  }

  /** A row that was not there before has a key that one of the transactions brought in. */
  lemma {:induction false} RowBrought(db: Database, us: seq<Transaction>, id: nat)
    requires Valid(db) && id in Run(db, us).rows && id !in db.rows
    ensures Brought(us, Run(db, us).rows[id].pubkey)
    decreases |us|
  {
    hide Valid, Introduces, Apply;
    var front, t := us[..|us| - 1], us[|us| - 1];
    RunKeeps(db, front);
    if id in Run(db, front).rows {
      RowBrought(db, front, id);
      TransactionKeeps(Run(db, front), t);
      var k :| 0 <= k < |front| && Introduces(front[k], Run(db, front).rows[id].pubkey);
      assert us[k] == front[k];
    } else {
      NewRow(Run(db, front), t, id);
      assert Introduces(us[|us| - 1], Run(db, us).rows[id].pubkey);
    }
  }

  /** A key is enabled only if it was before, or if a transaction brought it in. */
  lemma EnabledBefore(db: Database, us: seq<Transaction>, pubkey: Pubkey)
    requires Valid(db) && HasEnabled(Run(db, us).rows, pubkey)
    ensures HasEnabled(db.rows, pubkey) || Brought(us, pubkey)
  {
    hide Valid, Run, Brought;
    RunKeeps(db, us);
    var id :| id in Run(db, us).rows && Run(db, us).rows[id].pubkey == pubkey && Run(db, us).rows[id].enabled;
    if id !in db.rows {
      RowBrought(db, us, id);
    }
  }

  /** The same for a key that is in the table. */
  lemma TakenBefore(db: Database, us: seq<Transaction>, pubkey: Pubkey)
    requires Valid(db) && Taken(Run(db, us).rows, pubkey)
    ensures Taken(db.rows, pubkey) || Brought(us, pubkey)
  {
    hide Valid, Run, Brought;
    RunKeeps(db, us);
    var id :| id in Run(db, us).rows && Run(db, us).rows[id].pubkey == pubkey;
    if id !in db.rows {
      RowBrought(db, us, id);
    }
  }

  /** The same for a key that another user owns. */
  lemma OtherOwnerBefore(db: Database, us: seq<Transaction>, pubkey: Pubkey, user: Username)
    requires Valid(db) && OwnedByOther(Run(db, us).rows, pubkey, user)
    ensures OwnedByOther(db.rows, pubkey, user) || Brought(us, pubkey)
  {
    hide Valid, Run, Brought;
    RunKeeps(db, us);
    var id :| id in Run(db, us).rows && Run(db, us).rows[id].pubkey == pubkey && Run(db, us).rows[id].username != user;
    if id !in db.rows {
      RowBrought(db, us, id);
    }
  }

  /** No row is dated later. */
  ghost predicate DatedBy(db: Database, now: int) {
    forall id | id in db.rows :: db.rows[id].createdAt <= now
  }

  /** Nor does the transaction bring in a row that is. */
  ghost predicate DatesBy(t: Transaction, now: int) {
    forall date | Dates(t, date) :: date <= now
  }

  /** As long as the clock is never set back, no row of the table is dated in the future. */
  lemma {:induction false} NoRowFromFuture(db: Database, us: seq<Transaction>, now: int)
    requires Valid(db) && DatedBy(db, now)
    requires forall k | 0 <= k < |us| :: DatesBy(us[k], now)
    ensures DatedBy(Run(db, us), now)
    decreases |us|
  {
    hide Valid, Apply, Dates;
    if us != [] {
      var front, t := us[..|us| - 1], us[|us| - 1];
      NoRowFromFuture(db, front, now);
      RunKeeps(db, front);
      var before, after := Run(db, front), Run(db, us);
      TransactionKeeps(before, t);
      forall id | id in after.rows ensures after.rows[id].createdAt <= now {
        if id !in before.rows {
          NewRow(before, t, id);
          assert DatesBy(us[|us| - 1], now);
        }
      }
    }
  }

  // ------------------------------------------------------------------ ownership

  /** The transactions that delete the rows of a user. */
  predicate Deletes(t: Transaction, user: Username) {
    (t.Replace? || t.Unlink?) && t.user == user
  }

  lemma {:induction false} LegacyKeepsOwner(db: Database, users: seq<Legacy>, pubkey: Pubkey, user: Username)
    requires Valid(db) && OwnedBy(db.rows, pubkey, user)
    ensures OwnedBy(InsertLegacy(db, users).rows, pubkey, user)
  {
    LegacyKeeps(db, users);
    LegacyAdds(db, users);
    var id :| id in db.rows && db.rows[id].pubkey == pubkey && db.rows[id].username == user;
    assert InsertLegacy(db, users).rows[id] == db.rows[id];
  }

  lemma {:induction false} LegacyAdds(db: Database, users: seq<Legacy>)
    requires Valid(db)
    ensures forall id | id in db.rows :: id in InsertLegacy(db, users).rows && InsertLegacy(db, users).rows[id] == db.rows[id]
    decreases |users|
  {
    if users != [] {
      var u := users[0];
      var d := LEGACY_DETAILS;
      InsertKeeps(db, u.username, u.pubkey, u.createdAt, u.lastUsed, u.enabled, d);
      var after := Insert(db, u.username, u.pubkey, u.createdAt, u.lastUsed, u.enabled, d);
      LegacyAdds(if after.Ok? then after.value else db, users[1..]);
    }
  }

  /** Only the deletion of a user's own rows takes a key away from the user. */
  lemma OwnerKept(db: Database, t: Transaction, pubkey: Pubkey, user: Username)
    requires Valid(db) && OwnedBy(db.rows, pubkey, user) && !Deletes(t, user)
    ensures OwnedBy(Apply(db, t).rows, pubkey, user)
  {
    var id :| id in db.rows && db.rows[id].pubkey == pubkey && db.rows[id].username == user;
    var after := Apply(db, t);
    if t.Open? {
      if t.checked < MIGRATED && t.legacy.Some? {
        LegacyKeepsOwner(db, t.legacy.value, pubkey, user);
      }
    } else {
      assert id in after.rows && after.rows[id].pubkey == pubkey && after.rows[id].username == user;
    }
  }

  lemma OneOwner(db: Database, pubkey: Pubkey, u: Username, v: Username)
    requires Valid(db) && OwnedBy(db.rows, pubkey, u) && OwnedBy(db.rows, pubkey, v)
    ensures u == v
  {
  }

  /** A key changes hands only after a transaction that deleted its former owner's rows. */
  lemma {:induction false} HandsOver(db: Database, ts: seq<Transaction>, pubkey: Pubkey, u: Username, v: Username)
    requires Valid(db) && OwnedBy(db.rows, pubkey, u) && u != v
    requires OwnedBy(Run(db, ts).rows, pubkey, v)
    ensures exists k :: 0 <= k < |ts| && Deletes(ts[k], u)
  {
    if forall k | 0 <= k < |ts| :: !Deletes(ts[k], u) {
      StillOwned(db, ts, pubkey, u);
      RunKeeps(db, ts);
      OneOwner(Run(db, ts), pubkey, u, v);
    }
  }

  lemma {:induction false} StillOwned(db: Database, ts: seq<Transaction>, pubkey: Pubkey, u: Username)
    requires Valid(db) && OwnedBy(db.rows, pubkey, u)
    requires forall k | 0 <= k < |ts| :: !Deletes(ts[k], u)
    ensures OwnedBy(Run(db, ts).rows, pubkey, u)
    decreases |ts|
  {
    hide Valid, OwnedBy;
    if ts != [] {
      var front := ts[..|ts| - 1];
      assert forall k | 0 <= k < |front| :: front[k] == ts[k];
      StillOwned(db, front, pubkey, u);
      RunKeeps(db, front);
      OwnerKept(Run(db, front), ts[|ts| - 1], pubkey, u);
    }
  }

  // ------------------------------------------------------------------ checks on an earlier table

  lemma {:induction false} VersionIs(db: Database, us: seq<Transaction>)
    ensures Run(db, us).version == db.version || Run(db, us).version == MIGRATED
    decreases |us|
  {
    if us != [] {
      VersionIs(db, us[..|us| - 1]);
      if us[|us| - 1].Open? && us[|us| - 1].legacy.Some? {
        LegacyLeavesVersion(Run(db, us[..|us| - 1]), us[|us| - 1].legacy.value);
      }
    }
  }

  lemma {:induction false} LegacyLeavesVersion(db: Database, users: seq<Legacy>)
    ensures InsertLegacy(db, users).version == db.version && InsertLegacy(db, users).lastId >= db.lastId
    decreases |users|
  {
    if users != [] {
      var u := users[0];
      var after := Insert(db, u.username, u.pubkey, u.createdAt, u.lastUsed, u.enabled, LEGACY_DETAILS);
      LegacyLeavesVersion(if after.Ok? then after.value else db, users[1..]);
    }
  }

  predicate AllTaken(rows: map<nat, Identity>, users: seq<Legacy>) {
    forall u | u in users :: Taken(rows, u.pubkey)
  }

  /** Copying the old table adds nothing exactly when all its keys are taken. */
  lemma {:induction false} CopyAddsNothing(db: Database, users: seq<Legacy>)
    ensures InsertLegacy(db, users) == db <==> AllTaken(db.rows, users)
    decreases |users|
  {
    if users != [] {
      var u := users[0];
      var after := Insert(db, u.username, u.pubkey, u.createdAt, u.lastUsed, u.enabled, LEGACY_DETAILS);
      if after.Ok? {
        LegacyLeavesVersion(after.value, users[1..]);
      } else {
        CopyAddsNothing(db, users[1..]);
        assert users == [u] + users[1..];
      }
    }
  }

  /**
   Openings that overlap: one of them has found the table not yet migrated, and another has migrated it
   before the first one's transaction. That transaction then changes nothing exactly when every key of
   the old table is taken.
   */
  lemma OpenAfterStaleCheck(read: Database, us: seq<Transaction>, legacy: Option<seq<Legacy>>)
    requires Valid(read) && read.version < MIGRATED <= Run(read, us).version
    ensures var db := Run(read, us);
            Apply(db, Open(read.version, legacy)) == db <==> legacy.None? || AllTaken(db.rows, legacy.value)
  {
    hide Run, AllTaken;
    VersionIs(read, us);
    if legacy.Some? {
      LegacyLeavesVersion(Run(read, us), legacy.value);
      CopyAddsNothing(Run(read, us), legacy.value);
    }
  }

  /** So it is as long as no user's rows were deleted since the other one copied the same old table. */
  lemma NothingDeletedSince(db: Database, checked: int, users: seq<Legacy>, us: seq<Transaction>)
    requires Valid(db) && checked < MIGRATED
    requires forall k | 0 <= k < |us| :: !us[k].Replace? && !us[k].Unlink?
    ensures AllTaken(Run(Apply(db, Open(checked, Some(users))), us).rows, users)
  {
    hide Valid, Run;
    var copied := Apply(db, Open(checked, Some(users)));
    TransactionKeeps(db, Open(checked, Some(users)));
    CopyTakesAll(db, users);
    forall u | u in users ensures Taken(Run(copied, us).rows, u.pubkey) {
      assert Taken(copied.rows, u.pubkey);
      var id :| id in copied.rows && copied.rows[id].pubkey == u.pubkey;
      StillOwned(copied, us, u.pubkey, copied.rows[id].username);
    }
  }

  lemma {:induction false} CopyTakesAll(db: Database, users: seq<Legacy>)
    requires Valid(db)
    ensures AllTaken(InsertLegacy(db, users).rows, users)
    decreases |users|
  {
    if users != [] {
      var u := users[0];
      var d := LEGACY_DETAILS;
      InsertKeeps(db, u.username, u.pubkey, u.createdAt, u.lastUsed, u.enabled, d);
      var after := Insert(db, u.username, u.pubkey, u.createdAt, u.lastUsed, u.enabled, d);
      var next := if after.Ok? then after.value else db;
      CopyTakesAll(next, users[1..]);
      assert Taken(next.rows, u.pubkey) by {
        assert after.Ok? ==> next.lastId in next.rows;
      }
      var id :| id in next.rows && next.rows[id].pubkey == u.pubkey;
      LegacyAdds(next, users[1..]);
      assert id in InsertLegacy(db, users).rows;
      assert users == [u] + users[1..];
    }
  }

  /** Otherwise a key that was deleted in between comes back, and enabled. */
  lemma DeletedKeyComesBack()
    ensures var users := [Legacy("alice", "k", 0, None, true)];
            var db := Run(EMPTY, [Open(EMPTY.version, Some(users)), Unlink("alice")]);
            && db.version >= MIGRATED && !Taken(db.rows, "k")
            && HasEnabled(Apply(db, Open(EMPTY.version, Some(users))).rows, "k")
  {
    var users := [Legacy("alice", "k", 0, None, true)];
    var us := [Open(EMPTY.version, Some(users)), Unlink("alice")];
    assert us[..1] == [us[0]] && us[..1][..0] == [];
    assert users[1..] == [];
    var copied := Run(EMPTY, us[..1]);
    assert Run(EMPTY, us[..1][..0]) == EMPTY && copied == Apply(EMPTY, us[0]);
    var row := NewIdentity(1, "alice", "k", 0, None, true, LEGACY_DETAILS);
    assert copied == Database(map[1 := row], 1, MIGRATED);
    var db := Run(EMPTY, us);
    assert db == Apply(copied, us[1]);
    assert db.rows == map[];
    var late := Apply(db, us[0]);
    assert late.rows == map[2 := NewIdentity(2, "alice", "k", 0, None, true, LEGACY_DETAILS)];
    assert 2 in late.rows;
  }

  /**
   Linking in between other writers: the ownership check reads the table before the transactions of
   others, the transaction works on the table after them. The constraint makes up for it: after a check
   that passed, the transaction fails, and changes nothing, exactly when another user owns the key by
   then, and that takes a transaction in between that brought the key in.
   */
  lemma LinkAfterStaleCheck(read: Database, us: seq<Transaction>, user: Username, pubkey: Pubkey, now: int, d: Details)
    requires Valid(read) && !OwnedByOther(read.rows, pubkey, user)
    ensures var db := Run(read, us);
            var after := Insert(DeleteUser(db, user), user, pubkey, now, None, true, d);
            && (after.Thrown? <==> OwnedByOther(db.rows, pubkey, user))
            && (after.Thrown? ==> Apply(db, Replace(user, pubkey, now, d)) == db && Brought(us, pubkey))
            && (after.Ok? ==> OwnedBy(Apply(db, Replace(user, pubkey, now, d)).rows, pubkey, user))
  {
    hide Run, Valid, Brought;
    var db := Run(read, us);
    RunKeeps(read, us);
    LinkOutcome(db, user, pubkey, now, d);
    if OwnedByOther(db.rows, pubkey, user) {
      OtherOwnerBefore(read, us, pubkey, user);
    }
  }

  lemma LinkOutcome(db: Database, user: Username, pubkey: Pubkey, now: int, d: Details)
    requires Valid(db)
    ensures var after := Insert(DeleteUser(db, user), user, pubkey, now, None, true, d);
            && (after.Thrown? <==> OwnedByOther(db.rows, pubkey, user))
            && (after.Ok? ==> OwnedBy(Apply(db, Replace(user, pubkey, now, d)).rows, pubkey, user))
  {
    var deleted := DeleteUser(db, user);
    if Taken(deleted.rows, pubkey) {
      var id :| id in deleted.rows && deleted.rows[id].pubkey == pubkey;
      assert id in db.rows && db.rows[id].username != user;
    } else {
      var after := Apply(db, Replace(user, pubkey, now, d));
      var id := db.lastId + 1;
      assert id in after.rows && after.rows[id].pubkey == pubkey && after.rows[id].username == user;
      forall id | id in db.rows && db.rows[id].pubkey == pubkey ensures db.rows[id].username == user {
        assert id in deleted.rows || db.rows[id].username == user;
      }
    }
  }

  /** Adding, likewise: its check refuses a key of any user, and so does the constraint. */
  lemma AddAfterStaleCheck(read: Database, us: seq<Transaction>, user: Username, pubkey: Pubkey, now: int, d: Details)
    requires Valid(read) && !Taken(read.rows, pubkey)
    ensures var db := Run(read, us);
            var after := Apply(db, Add(user, pubkey, now, d));
            && (Taken(db.rows, pubkey) ==> after == db && Brought(us, pubkey))
            && (!Taken(db.rows, pubkey) ==> OwnedBy(after.rows, pubkey, user) && after.rows.Keys == db.rows.Keys + {db.lastId + 1})
  {
    hide Run, Valid, Brought;
    var db := Run(read, us);
    var after := Apply(db, Add(user, pubkey, now, d));
    if Taken(db.rows, pubkey) {
      TakenBefore(read, us, pubkey);
    } else {
      var id := db.lastId + 1;
      assert id in after.rows && after.rows[id].pubkey == pubkey && after.rows[id].username == user;
    }
  }
}
