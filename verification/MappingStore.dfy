/** `MappingStore`: its methods, their lookups and orderings, and the answers built on them. */
module MappingStore {
  import opened Mappings
  import opened Outcomes

  // ------------------------------------------------------------------ orderings

  /** ORDER BY created_at DESC, identity_id DESC */
  predicate Newer(r: Identity, s: Identity) {
    r.createdAt > s.createdAt || (r.createdAt == s.createdAt && r.id > s.id)
  }

  /** ORDER BY enabled DESC, created_at DESC, identity_id DESC */
  predicate Before(r: Identity, s: Identity) {
    (r.enabled && !s.enabled) || (r.enabled == s.enabled && Newer(r, s))
  }

  predicate Selected(r: Identity, user: Username, includeDisabled: bool) {
    r.username == user && (includeDisabled || r.enabled)
  }

  /** The rows with ids below `bound` that a listing selects, newest first. */
  ghost predicate IsListing(rows: map<nat, Identity>, bound: nat, user: Username, includeDisabled: bool, s: seq<Identity>) {
    && (forall r | r in s :: r.id < bound && r.id in rows && rows[r.id] == r && Selected(r, user, includeDisabled))
    && (forall id | id in rows && id < bound && Selected(rows[id], user, includeDisabled) :: rows[id] in s)
    && (forall i, j | 0 <= i < j < |s| :: Newer(s[i], s[j]))
  }

  /** The row a query with LIMIT 1 returns. */
  ghost predicate IsFirst(rows: map<nat, Identity>, bound: nat, user: Username, r: Option<Identity>) {
    if r.Some? then
      && r.value.id < bound && r.value.id in rows && rows[r.value.id] == r.value && r.value.username == user
      && forall id | id in rows && id < bound && rows[id].username == user && id != r.value.id :: Before(r.value, rows[id])
    else
      forall id | id in rows && id < bound :: rows[id].username != user
  }

  function InsertNewest(s: seq<Identity>, r: Identity): seq<Identity> {
    if s == [] || Newer(r, s[0]) then [r] + s else [s[0]] + InsertNewest(s[1..], r)
  }

  lemma {:induction false} InsertNewestSorts(s: seq<Identity>, r: Identity)
    requires forall i, j | 0 <= i < j < |s| :: Newer(s[i], s[j])
    requires forall x | x in s :: x.id != r.id
    ensures var t := InsertNewest(s, r);
            && (forall x :: x in t <==> x in s || x == r)
            && (forall i, j | 0 <= i < j < |t| :: Newer(t[i], t[j]))
  {
    if s != [] && !Newer(r, s[0]) {
      InsertNewestSorts(s[1..], r);
      var rest := InsertNewest(s[1..], r);
      forall x | x in rest ensures Newer(s[0], x) {
        assert x in s[1..] || x == r;
      }
      assert s == [s[0]] + s[1..];
    }
  }

  // ------------------------------------------------------------------ the store

  class Store {
    var rows: map<nat, Identity>
    var lastId: nat
    var version: int

    function State(): Database
      reads this
    {
      Database(rows, lastId, version)
    }

    /**
     Opening: creates the table where there is none, and copies the old one where that was not done by the
     version read. What the transaction finds may be newer than that version.
     */
    constructor (checked: int, found: Database, legacy: Option<seq<Legacy>>)
      requires Valid(found)
      ensures Valid(State()) && State() == Apply(found, Open(checked, legacy))
      ensures checked >= 1 || legacy.None? ==> rows == found.rows
      ensures checked < 1 && legacy.Some? ==> Migrated(found.rows, rows, legacy.value)
      ensures version == if checked >= 1 then found.version else 1
    {
      rows, lastId, version := found.rows, found.lastId, found.version;
      new;
      hide Insert, InsertLegacy, Migrated, Valid, Evolves, Taken;
      TransactionKeeps(found, Open(checked, legacy));
      if checked >= MIGRATED {
        return;
      }
      if legacy.Some? {
        CopyMigrates(found, legacy.value);
      }
      if legacy.Some? {
        var users := legacy.value;
        var i := 0;
        assert users[0..] == users;
        while i < |users|
          invariant 0 <= i <= |users|
          invariant InsertLegacy(found, users) == InsertLegacy(State(), users[i..])
        {
          var u := users[i];
          LegacyFirst(State(), users[i..]);
          var _ := InsertRow(u.username, u.pubkey, u.createdAt, u.lastUsed, u.enabled, LEGACY_DETAILS);
          assert users[i..][1..] == users[i + 1..];
          i := i + 1;
        }
        LegacyFirst(State(), users[i..]);
      }
      version := MIGRATED;
    }

    /** One INSERT; false when the UNIQUE constraint refuses it. */
    method InsertRow(user: Username, pubkey: Pubkey, now: int, lastUsed: Option<int>, enabled: bool, d: Details)
      returns (ok: bool)
      modifies this
      ensures var after := Insert(old(State()), user, pubkey, now, lastUsed, enabled, d);
              && (ok <==> after.Ok?) && State() == if ok then after.value else old(State())
    {
      if Taken(rows, pubkey) {
        return false;
      }
      lastId := lastId + 1;
      rows := rows[lastId := NewIdentity(lastId, user, pubkey, now, lastUsed, enabled, d)];
      ok := true;
    }

    /** `link`: replaces all identities of the user; throws, and changes nothing, when the key is another user's. */
    method Link(user: Username, pubkey: Pubkey, d: Details, now: int) returns (res: Result<()>)
      requires Valid(State())
      modifies this
      ensures Valid(State()) && State() == Apply(old(State()), Replace(user, pubkey, now, d))
      ensures res.Thrown? <==> OwnedByOther(old(rows), pubkey, user)
      ensures res.Thrown? ==> State() == old(State())
      ensures res.Ok? ==> lastId == old(lastId) + 1 && lastId in rows && IsLinked(rows[lastId], lastId, user, pubkey, now, d)
      ensures res.Ok? ==> WithoutUser(old(rows), rows - {lastId}, user)
    {
      ghost var before := State();
      TransactionKeeps(before, Replace(user, pubkey, now, d));
      LinkOutcome(before, user, pubkey, now, d);
      if OwnedByOther(rows, pubkey, user) {
        return Thrown;
      }
      rows := map id | id in rows && rows[id].username != user :: rows[id];
      assert State() == DeleteUser(before, user);
      var _ := InsertRow(user, pubkey, now, None, true, d);
      res := Ok(());
    }

    /** `add_identity`: throws, and changes nothing, when the key is taken, even by the same user. */
    method AddIdentity(user: Username, pubkey: Pubkey, d: Details, now: int) returns (res: Result<Identity>)
      requires Valid(State())
      modifies this
      ensures Valid(State()) && State() == Apply(old(State()), Add(user, pubkey, now, d))
      ensures res.Thrown? <==> Taken(old(rows), pubkey)
      ensures res.Thrown? ==> State() == old(State())
      ensures res.Ok? ==> IsLinked(res.value, old(lastId) + 1, user, pubkey, now, d)
      ensures res.Ok? ==> rows == old(rows)[res.value.id := res.value]
    {
      TransactionKeeps(State(), Add(user, pubkey, now, d));
      var taken := Taken(rows, pubkey);
      if taken {
        return Thrown;
      }
      var _ := InsertRow(user, pubkey, now, None, true, d);
      res := Ok(rows[lastId]);
    }

    method Unlink(user: Username)
      requires Valid(State())
      modifies this
      ensures Valid(State()) && State() == Apply(old(State()), Mappings.Unlink(user))
      ensures WithoutUser(old(rows), rows, user)
    {
      TransactionKeeps(State(), Mappings.Unlink(user));
      rows := map id | id in rows && rows[id].username != user :: rows[id];
    }

    /** `revoke_identity`: false, and no change, unless the identity is the user's and enabled. */
    method RevokeIdentity(id: nat, user: Username, now: int) returns (ok: bool)
      requires Valid(State())
      modifies this
      ensures Valid(State()) && State() == Apply(old(State()), Revoke(id, user, now))
      ensures ok <==> IsActive(old(State()), id, user)
      ensures ok ==> rows == old(rows)[id := old(rows)[id].(enabled := false, revokedAt := Some(now))]
      ensures !ok ==> State() == old(State())
    {
      TransactionKeeps(State(), Revoke(id, user, now));
      ok := id in rows && rows[id].username == user && rows[id].enabled;
      if ok {
        rows := rows[id := rows[id].(enabled := false, revokedAt := Some(now))];
      }
    }

    /** `update_identity_label` */
    method UpdateCaption(id: nat, user: Username, caption: Option<string>) returns (r: Option<Identity>)
      requires Valid(State())
      modifies this
      ensures Valid(State()) && State() == Apply(old(State()), Rename(id, user, caption))
      ensures r.Some? <==> IsActive(old(State()), id, user)
      ensures r.Some? ==> r.value == old(rows)[id].(caption := caption) && rows == old(rows)[id := r.value]
      ensures r.None? ==> State() == old(State())
    {
      TransactionKeeps(State(), Rename(id, user, caption));
      if !(id in rows && rows[id].username == user && rows[id].enabled) {
        return None;
      }
      rows := rows[id := rows[id].(caption := caption)];
      r := Some(rows[id]);
    }

    method TouchIdentity(id: nat, now: int)
      requires Valid(State())
      modifies this
      ensures Valid(State()) && State() == Apply(old(State()), Touch(id, now))
      ensures rows.Keys == old(rows).Keys && forall i | i in rows :: rows[i] == old(rows)[i].(lastUsed := rows[i].lastUsed)
      ensures forall i | i in rows ::
                rows[i].lastUsed == if i == id && old(rows)[i].enabled then Some(now) else old(rows)[i].lastUsed
    {
      TransactionKeeps(State(), Touch(id, now));
      if id in rows && rows[id].enabled {
        rows := rows[id := rows[id].(lastUsed := Some(now))];
      }
    }

    /** `touch_last_used` */
    method TouchLastUsed(user: Username, now: int)
      requires Valid(State())
      modifies this
      ensures Valid(State()) && State() == Apply(old(State()), TouchUser(user, now))
      ensures rows.Keys == old(rows).Keys && forall i | i in rows :: rows[i] == old(rows)[i].(lastUsed := rows[i].lastUsed)
      ensures forall i | i in rows ::
                rows[i].lastUsed == if old(rows)[i].username == user && old(rows)[i].enabled then Some(now) else old(rows)[i].lastUsed
    {
      TransactionKeeps(State(), TouchUser(user, now));
      ghost var before := State();
      rows := map id | id in rows ::
        if rows[id].username == user && rows[id].enabled then rows[id].(lastUsed := Some(now)) else rows[id];
      assert rows == Apply(before, TouchUser(user, now)).rows;
    }

    /** `get_by_pubkey`: the enabled identity with the key. */
    method GetByPubkey(pubkey: Pubkey) returns (r: Option<Identity>)
      requires Valid(State())
      ensures r.Some? ==> r.value.id in rows && rows[r.value.id] == r.value && r.value.pubkey == pubkey && r.value.enabled
      ensures r.None? ==> forall id | id in rows && rows[id].pubkey == pubkey :: !rows[id].enabled
    {
      if id :| id in rows && rows[id].pubkey == pubkey {
        return if rows[id].enabled then Some(rows[id]) else None;
      }
      r := None;
    }

    /** `get_by_username`, with one pass for ORDER BY and LIMIT 1. */
    method GetByUsername(user: Username) returns (r: Option<Identity>)
      requires Valid(State())
      ensures IsFirst(rows, lastId + 1, user, r)
    {
      r := None;
      for id := 1 to lastId + 1
        invariant IsFirst(rows, id, user, r)
      {
        if id in rows && rows[id].username == user && (r.None? || Before(rows[id], r.value)) {
          r := Some(rows[id]);
        }
      }
    }

    /** `list_by_username` */
    method ListByUsername(user: Username, includeDisabled: bool) returns (s: seq<Identity>)
      requires Valid(State())
      ensures IsListing(rows, lastId + 1, user, includeDisabled, s)
      ensures forall r :: r in s <==> r.id in rows && rows[r.id] == r && r.username == user && (includeDisabled || r.enabled)
    {
      s := [];
      for id := 1 to lastId + 1
        invariant IsListing(rows, id, user, includeDisabled, s)
      {
        if id in rows && Selected(rows[id], user, includeDisabled) {
          InsertNewestSorts(s, rows[id]);
          s := InsertNewest(s, rows[id]);
        }
      }
    }

    /** The NIP-05 answer for a name: its key, if it has an enabled identity (`nostr_json_endpoint`). */
    method NostrJson(name: string) returns (r: Option<Pubkey>)
      requires Valid(State())
      ensures r.Some? <==> name != "" && exists id | id in rows :: rows[id].username == name && rows[id].enabled
      ensures r.Some? ==> OwnedBy(rows, r.value, name)
      ensures r.Some? ==> forall id | id in rows && rows[id].pubkey == r.value :: rows[id].username == name && rows[id].enabled
    {
      if name == "" {
        return None;
      }
      var identity := GetByUsername(name);
      if identity.Some? && identity.value.enabled {
        return Some(identity.value.pubkey);
      }
      r := None;
    }

    /** What `/identities/link` does after its checks: adds, and reports the account's first identity. */
    method AddAndReport(user: Username, pubkey: Pubkey, d: Details, now: int) returns (res: Result<Identity>)
      requires Valid(State())
      modifies this
      ensures Valid(State()) && State() == Apply(old(State()), Add(user, pubkey, now, d))
      ensures res.Thrown? <==> Taken(old(rows), pubkey)
      ensures res.Ok? ==> IsFirst(rows, lastId + 1, user, Some(res.value))
      ensures res.Ok? ==> (res.value.id == old(lastId) + 1 <==> NoneFromFuture(old(rows), user, now))
    {
      ghost var before := State();
      var added := AddIdentity(user, pubkey, d, now);
      if added.Thrown? {
        return Thrown;
      }
      var first := GetByUsername(user);
      NewestIsAdded(before, user, added.value, first);
      res := Ok(first.value);
    }
  }

  // ------------------------------------------------------------------ lookups against each other

  ghost predicate NoneFromFuture(rows: map<nat, Identity>, user: Username, now: int) {
    forall id | id in rows && rows[id].username == user && rows[id].enabled :: rows[id].createdAt <= now
  }

  /** The added identity comes first exactly when no enabled one of the account is dated later. */
  lemma NewestIsAdded(db: Database, user: Username, added: Identity, first: Option<Identity>)
    requires Valid(db) && added.id == db.lastId + 1 && added.username == user && added.enabled
    requires IsFirst(db.rows[added.id := added], db.lastId + 2, user, first)
    ensures first.Some?
    ensures first.value.id == added.id <==> NoneFromFuture(db.rows, user, added.createdAt)
  {
    var rows := db.rows[added.id := added];
    assert added.id in rows && rows[added.id].username == user;
    if first.value.id == added.id {
      forall id | id in db.rows && db.rows[id].username == user && db.rows[id].enabled
        ensures db.rows[id].createdAt <= added.createdAt
      {
        assert Before(added, rows[id]);
      }
    }
  }

  /**
   Adds that run one after the other, on a clock that is never set back: starting from rows that are not
   dated in the future, each of them is reported as the account's first identity.
   */
  lemma AddedIsReported(db: Database, us: seq<Transaction>, user: Username, now: int)
    requires Valid(db) && DatedBy(db, now)
    requires forall k | 0 <= k < |us| :: DatesBy(us[k], now)
    ensures NoneFromFuture(Run(db, us).rows, user, now)
  {
    hide Run;
    NoRowFromFuture(db, us, now);
  }

  /** Otherwise it need not be: an identity dated a second after the added one is reported instead. */
  lemma LaterRowReported()
    ensures var details := Details("nip07", None, "self-service");
            var db := Run(EMPTY, [Add("a", "k", 2, details)]);
            var added := NewIdentity(2, "a", "l", 1, None, true, details);
            var after := Apply(db, Add("a", "l", 1, details));
            && Valid(db) && after.rows == db.rows[2 := added] && !NoneFromFuture(db.rows, "a", 1)
            && IsFirst(after.rows, after.lastId + 1, "a", Some(db.rows[1])) && db.rows[1].pubkey == "k"
  {
    var details := Details("nip07", None, "self-service");
    var t := Add("a", "k", 2, details);
    assert [t][..0] == [];
    var db := Run(EMPTY, [t]);
    assert Run(EMPTY, [t][..0]) == EMPTY;
    assert db == Apply(EMPTY, t);
    var row := NewIdentity(1, "a", "k", 2, None, true, details);
    assert db.rows == map[1 := row];
    assert "k" != "l";
    assert !Taken(db.rows, "l");
    assert 1 in db.rows && db.rows[1].createdAt > 1;
  }

  /**
   The account's one identity is enabled exactly when the account has an enabled identity, and then it
   heads the listing of the enabled ones.
   */
  lemma FirstHeadsListing(db: Database, user: Username, first: Option<Identity>, listing: seq<Identity>)
    requires Valid(db)
    requires IsFirst(db.rows, db.lastId + 1, user, first) && IsListing(db.rows, db.lastId + 1, user, false, listing)
    ensures first.Some? && first.value.enabled <==> listing != []
    ensures listing != [] ==> listing[0] == first.value
  {
    if listing != [] {
      assert listing[0] in listing;
      var r := listing[0];
      assert first.Some?;
      if first.value.id != r.id {
        assert Before(first.value, r);
        assert first.value in listing;
        var i :| 0 <= i < |listing| && listing[i] == first.value;
        assert i > 0 ==> Newer(listing[0], listing[i]);
      }
    }
  }

  /** No two listings of a table differ. */
  lemma {:induction false} ListingUnique(rows: map<nat, Identity>, bound: nat, user: Username, all: bool,
                                         s: seq<Identity>, t: seq<Identity>)
    requires IsListing(rows, bound, user, all, s) && IsListing(rows, bound, user, all, t)
    ensures s == t
  {
    SortedSameMembers(s, t);
  }

  lemma HasMember(t: seq<Identity>)
    requires t != []
    ensures exists r :: r in t
  {
    assert t[0] in t;
  }

  lemma {:induction false} SortedSameMembers(s: seq<Identity>, t: seq<Identity>)
    requires forall i, j | 0 <= i < j < |s| :: Newer(s[i], s[j])
    requires forall i, j | 0 <= i < j < |t| :: Newer(t[i], t[j])
    requires forall r :: r in s <==> r in t
    ensures s == t
  {
    if t != [] {
      HasMember(t);
    }
    if s != [] {
      HasMember(s);
      assert s[0] in t && t[0] in s;
      var i :| 0 <= i < |t| && t[i] == s[0];
      var j :| 0 <= j < |s| && s[j] == t[0];
      assert s[0] == t[0];
      forall r ensures r in s[1..] <==> r in t[1..] {
        assert r in s[1..] ==> Newer(s[0], r);
        assert r in t[1..] ==> Newer(t[0], r);
        assert r in s <==> r == s[0] || r in s[1..];
        assert r in t <==> r == t[0] || r in t[1..];
      }
      SortedSameMembers(s[1..], t[1..]);
    }
  }

  /** Name to key and key to name are inverse: looking up the key of the NIP-05 answer gives the name back. */
  lemma NameKeyName(db: Database, name: Username, first: Option<Identity>, byKey: Option<Identity>)
    requires Valid(db) && IsFirst(db.rows, db.lastId + 1, name, first) && first.Some? && first.value.enabled
    requires byKey.Some? ==> byKey.value.id in db.rows && db.rows[byKey.value.id] == byKey.value
                             && byKey.value.pubkey == first.value.pubkey
    requires byKey.None? ==> forall id | id in db.rows && db.rows[id].pubkey == first.value.pubkey :: !db.rows[id].enabled
    ensures byKey == first && byKey.value.username == name
  {
  }
}
