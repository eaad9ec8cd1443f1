/**
 Login and linking as a protocol: any number of requests, each of them a sequence of steps between
 which others may run, on one challenge table and one table of identities. A consume is one step, and
 so is every transaction on the identities; a request may stop anywhere. The log is in the order of the
 commits; a clock reading may have been taken any time before, and the clock may be set back.
 */
module AuthProtocol {
  import opened ChallengeStore
  import opened ChallengeWorkers
  import opened EventVerify
  import opened Mappings
  import opened Outcomes

  const LOGIN: string := "yunohost-login"
  const LINK: string := "yunohost-link"

  type RequestId = nat

  /** The limits that the validators of the settings put on the two times. */
  datatype Settings = Settings(ttl: int, skew: int, allowLogin: bool, allowLinking: bool)

  predicate ValidSettings(settings: Settings) {
    30 <= settings.ttl <= 120 && 0 <= settings.skew <= 300
  }

  /** A consumed challenge: what was returned, by which transaction of the log, and the clock read. */
  datatype Ticket = Ticket(challenge: Challenge, entry: nat, at: int)

  datatype Pc =
    | Free
    | LoginConsumed(raw: RawEvent, host: string, ticket: Ticket)
    | LoginFound(event: Event, identity: Identity, host: string, ticket: Ticket, seen: nat)
    | LoginTouched(event: Event, identity: Identity, host: string, ticket: Ticket, seen: nat)
    | LinkConsumed(raw: RawEvent, ticket: Ticket, replace: bool, details: Details)
    | LinkVerified(event: Event, user: Username, ticket: Ticket, replace: bool, details: Details)

  /** Who wrote to the identities. */
  datatype Cause = ByLogin(ticket: Ticket) | ByLink(ticket: Ticket, event: Event) | ByOther

  datatype Write = Write(transaction: Transaction, cause: Cause)

  /**
   What came of a consumed challenge: a session, or a new identity. A session is for one host, and the
   cookie that carries it is set for another, if the login request names another.
   */
  datatype Effect =
    | Minted(user: Username, host: string, cookieHost: string, event: Event, ticket: Ticket, seen: nat)
    | Linked(user: Username, event: Event, ticket: Ticket, write: nat)

  datatype World = World(
    settings: Settings,
    log: seq<Commit>,
    writes: seq<Write>,
    pcs: map<RequestId, Pc>,
    effects: seq<Effect>)

  function Begin(settings: Settings): World {
    World(settings, [], [], map[], [])
  }

  function PcIn(w: World, r: RequestId): Pc {
    if r in w.pcs then w.pcs[r] else Free
  }

  function Identities(writes: seq<Write>): Database
    decreases |writes|
  {
    if writes == [] then EMPTY
    else Mappings.Apply(Identities(writes[..|writes| - 1]), writes[|writes| - 1].transaction)
  }

  /** `get_by_pubkey` */
  predicate IsEnabledOwner(db: Database, pubkey: Pubkey, i: Identity) {
    i.id in db.rows && db.rows[i.id] == i && i.pubkey == pubkey && i.enabled
  }

  // ------------------------------------------------------------------ steps

  datatype Action =
    | IssueChallenge(domain: string, action: string, nonce: Nonce, now: int, pruneNow: int)
    | StartLogin(r: RequestId, raw: RawEvent, host: string, now: int)
    | FindIdentity(r: RequestId)
    | TouchFound(r: RequestId, now: int)
    | MintSession(r: RequestId, minted: bool)
    | StartLink(r: RequestId, raw: RawEvent, replace: bool, details: Details, now: int)
    | VerifyLink(r: RequestId, portal: Option<Username>)
    | WriteLink(r: RequestId, checked: bool, now: int)
    | WriteOther(transaction: Transaction)
    | Stop(r: RequestId)

  function SetPc(w: World, r: RequestId, pc: Pc): World {
    w.(pcs := w.pcs[r := pc])
  }

  /** `consume(nonce) if nonce else None`, as one committed transaction; a value that is no string finds nothing. */
  function Consume(w: World, raw: RawEvent, now: int): (World, Option<Ticket>) {
    var claimed := ClaimedNonce(raw);
    if claimed.None? || !claimed.value.Str? || claimed.value.s == "" then (w, None)
    else
      var result := ConsumeResult(Replay(w.log), claimed.value.s, now);
      (w.(log := w.log + [ConsumeCommit(claimed.value.s, now)]),
       if result.Some? then Some(Ticket(result.value, |w.log|, now)) else None)
  }

  /** The session minted at the end of a login. */
  function SessionOf(pc: Pc): Effect
    requires pc.LoginTouched?
  {
    Minted(pc.identity.username, pc.ticket.challenge.domain, pc.host, pc.event, pc.ticket, pc.seen)
  }

  /** One step; a step that is not possible, or not allowed by the settings, changes nothing. */
  ghost function Step(sig: Signatures, w: World, a: Action): World {
    match a
    case IssueChallenge(domain, action, nonce, now, pruneNow) =>
      var c := NewChallenge(nonce, domain, action, w.settings.ttl, now);
      var allowed := if action == LOGIN then w.settings.allowLogin else action == LINK;
      if !allowed || domain == "" || InsertRow(Replay(w.log), c, pruneNow).Thrown? then w
      else w.(log := w.log + [IssueCommit(c, pruneNow)])
    case StartLogin(r, raw, host, now) =>
      if !PcIn(w, r).Free? || !w.settings.allowLogin then w
      else
        var (w', ticket) := Consume(w, raw, now);
        if ticket.Some? && ticket.value.challenge.action == LOGIN
        then SetPc(w', r, LoginConsumed(raw, host, ticket.value))
        else w'
    case FindIdentity(r) => FindStep(sig, w, r)
    case TouchFound(r, now) =>
      var pc := PcIn(w, r);
      if !pc.LoginFound? then w
      else SetPc(w, r, LoginTouched(pc.event, pc.identity, pc.host, pc.ticket, pc.seen))
             .(writes := w.writes + [Write(Touch(pc.identity.id, now), ByLogin(pc.ticket))])
    case MintSession(r, minted) =>
      var pc := PcIn(w, r);
      if !pc.LoginTouched? then w
      else if !minted then SetPc(w, r, Free)
      else
        SetPc(w, r, Free).(effects := w.effects + [SessionOf(pc)])
    case StartLink(r, raw, replace, details, now) =>
      if !PcIn(w, r).Free? || !w.settings.allowLinking then w
      else
        var (w', ticket) := Consume(w, raw, now);
        if ticket.Some? && ticket.value.challenge.action == LINK
        then SetPc(w', r, LinkConsumed(raw, ticket.value, replace, details))
        else w'
    case VerifyLink(r, portal) =>
      var pc := PcIn(w, r);
      if !pc.LinkConsumed? then w
      else
        var key := VerifyResponse(sig, pc.raw, pc.ticket.challenge, w.settings.skew);
        if portal.None? || key.Thrown? then SetPc(w, r, Free)
        else SetPc(w, r, LinkVerified(sig.parse(pc.raw).value, portal.value, pc.ticket, pc.replace, pc.details))
    case WriteLink(r, checked, now) => WriteStep(w, r, checked, now)
    case WriteOther(transaction) => w.(writes := w.writes + [Write(transaction, ByOther)])
    case Stop(r) => SetPc(w, r, Free)
  }

  /** `authenticate`, from the checks on the event to the lookup of its signer. */
  ghost function FindStep(sig: Signatures, w: World, r: RequestId): World {
    var pc := PcIn(w, r);
    if !pc.LoginConsumed? then w
    else
      var key := VerifyResponse(sig, pc.raw, pc.ticket.challenge, w.settings.skew);
      var db := Identities(w.writes);
      if key.Thrown? || !HasEnabled(db.rows, key.value) then SetPc(w, r, Free)
      else
        var id :| id in db.rows && db.rows[id].pubkey == key.value && db.rows[id].enabled;
        SetPc(w, r, LoginFound(sig.parse(pc.raw).value, db.rows[id], pc.host, pc.ticket, |w.writes|))
  }

  /**
   The write of `link` or `add_identity`. Their ownership check read the table at some time before, so
   its outcome is left open; the transaction itself decides by the UNIQUE constraint.
   */
  function WriteStep(w: World, r: RequestId, checked: bool, now: int): World {
    var pc := PcIn(w, r);
    if !pc.LinkVerified? then w
    else
      var t := if pc.replace then Replace(pc.user, pc.event.author, now, pc.details)
               else Add(pc.user, pc.event.author, now, pc.details);
      var db := Identities(w.writes);
      if !checked || Mappings.Apply(db, t) == db then SetPc(w, r, Free)
      else SetPc(w, r, Free).(writes := w.writes + [Write(t, ByLink(pc.ticket, pc.event))],
                              effects := w.effects + [Linked(pc.user, pc.event, pc.ticket, |w.writes|)])
  }

  // ------------------------------------------------------------------ invariant

  /** The ticket is what its transaction returned. */
  ghost predicate TicketOk(log: seq<Commit>, t: Ticket) {
    && t.entry < |log| && log[t.entry].ConsumeCommit? && log[t.entry].now == t.at
    && ResultAt(log, t.entry) == Some(t.challenge)
  }

  /** The signed event, the challenge and the action belong together. */
  ghost predicate Proven(sig: Signatures, w: World, e: Event, t: Ticket, action: string) {
    t.challenge.action == action && Allowed(w.settings, action)
    && Attests(sig, e, t.challenge, w.settings.skew, e.author)
  }

  /** The switch of the settings for an action. */
  predicate Allowed(settings: Settings, action: string) {
    if action == LOGIN then settings.allowLogin else settings.allowLinking
  }

  /** When it was looked up, the identity was enabled and had the signer's key. */
  ghost predicate Owned(w: World, e: Event, user: Username, seen: nat) {
    && seen <= |w.writes|
    && exists i :: IsEnabledOwner(Identities(w.writes[..seen]), e.author, i) && i.username == user
  }

  ghost predicate PcOk(sig: Signatures, w: World, pc: Pc) {
    && (!pc.Free? ==> TicketOk(w.log, pc.ticket))
    && match pc
       case Free => true
       case LoginConsumed(_, _, t) => t.challenge.action == LOGIN && Allowed(w.settings, LOGIN)
       case LoginFound(e, i, _, t, seen) => Proven(sig, w, e, t, LOGIN) && Owned(w, e, i.username, seen)
       case LoginTouched(e, i, _, t, seen) => Proven(sig, w, e, t, LOGIN) && Owned(w, e, i.username, seen)
       case LinkConsumed(_, t, _, _) => t.challenge.action == LINK && Allowed(w.settings, LINK)
       case LinkVerified(e, _, t, _, _) => Proven(sig, w, e, t, LINK)
  }

  ghost predicate EffectOk(sig: Signatures, w: World, f: Effect) {
    && TicketOk(w.log, f.ticket)
    && match f
       case Minted(user, host, _, e, t, seen) =>
         Proven(sig, w, e, t, LOGIN) && Owned(w, e, user, seen) && host == t.challenge.domain
       case Linked(user, e, t, k) =>
         Proven(sig, w, e, t, LINK) && k < |w.writes| && IsLinkWrite(w.writes[k], user, e, t)
  }

  predicate IsLinkWrite(x: Write, user: Username, e: Event, t: Ticket) {
    && x.cause == ByLink(t, e)
    && (x.transaction.Replace? || x.transaction.Add?)
    && x.transaction.user == user && x.transaction.pubkey == e.author
  }

  /** Logins only note when an identity was used; links write the key that signed for them. */
  ghost predicate WriteOk(sig: Signatures, w: World, x: Write) {
    match x.cause
    case ByLogin(t) => x.transaction.Touch? && TicketOk(w.log, t) && t.challenge.action == LOGIN
    case ByLink(t, e) => TicketOk(w.log, t) && Proven(sig, w, e, t, LINK) && exists user :: IsLinkWrite(x, user, e, t)
    case ByOther => true
  }

  predicate UsesEntry(pc: Pc, entry: nat) {
    !pc.Free? && pc.ticket.entry == entry
  }

  /** One consumed challenge serves one request, and has one effect at most. */
  ghost predicate OneUse(w: World) {
    && (forall i, j | 0 <= i < j < |w.effects| :: w.effects[i].ticket.entry != w.effects[j].ticket.entry)
    && (forall r, i | 0 <= i < |w.effects| :: !UsesEntry(PcIn(w, r), w.effects[i].ticket.entry))
    && (forall q, r | q != r && !PcIn(w, q).Free? :: !UsesEntry(PcIn(w, r), PcIn(w, q).ticket.entry))
  }

  /** What an issued challenge looks like. */
  ghost predicate IssueFits(settings: Settings, c: Commit) {
    c.IssueCommit? ==>
      && c.challenge.expiresAt == c.challenge.issuedAt + settings.ttl
      && c.challenge.domain != "" && c.challenge.action in {LOGIN, LINK}
  }

  ghost predicate AllFit(w: World) {
    forall c | c in w.log :: IssueFits(w.settings, c)
  }

  ghost predicate Invariant(sig: Signatures, w: World) {
    && AllPossible(w.log) && AllFit(w) && OneUse(w)
    && (forall r :: PcOk(sig, w, PcIn(w, r)))
    && (forall f | f in w.effects :: EffectOk(sig, w, f))
    && (forall x | x in w.writes :: WriteOk(sig, w, x))
  }

  // ------------------------------------------------------------------ what is true stays true

  /** A later world: histories only grow. */
  ghost predicate Later(w: World, w': World) {
    && w'.settings == w.settings && w.log <= w'.log && w.writes <= w'.writes
  }

  lemma TicketLasts(log: seq<Commit>, log': seq<Commit>, t: Ticket)
    requires TicketOk(log, t) && log <= log'
    ensures TicketOk(log', t)
  {
    assert log'[..t.entry] == log[..t.entry] && log'[t.entry] == log[t.entry];
  }

  lemma OwnedLasts(w: World, w': World, e: Event, user: Username, seen: nat)
    requires Owned(w, e, user, seen) && w.writes <= w'.writes
    ensures Owned(w', e, user, seen)
  {
    hide IsEnabledOwner;
    assert w'.writes[..seen] == w.writes[..seen];
    var i :| IsEnabledOwner(Identities(w.writes[..seen]), e.author, i) && i.username == user;
    assert IsEnabledOwner(Identities(w'.writes[..seen]), e.author, i);
  }

  lemma PcLasts(sig: Signatures, w: World, w': World, pc: Pc)
    requires PcOk(sig, w, pc) && Later(w, w')
    ensures PcOk(sig, w', pc)
  {
    hide TicketOk, Owned;
    if !pc.Free? {
      TicketLasts(w.log, w'.log, pc.ticket);
    }
    if pc.LoginFound? || pc.LoginTouched? {
      OwnedLasts(w, w', pc.event, pc.identity.username, pc.seen);
    }
  }

  lemma EffectLasts(sig: Signatures, w: World, w': World, f: Effect)
    requires EffectOk(sig, w, f) && Later(w, w')
    ensures EffectOk(sig, w', f)
  {
    hide TicketOk, Owned, IsLinkWrite;
    TicketLasts(w.log, w'.log, f.ticket);
    if f.Minted? {
      OwnedLasts(w, w', f.event, f.user, f.seen);
    }
  }

  lemma WriteLasts(sig: Signatures, w: World, w': World, x: Write)
    requires WriteOk(sig, w, x) && Later(w, w')
    ensures WriteOk(sig, w', x)
  {
    hide TicketOk;
    if !x.cause.ByOther? {
      TicketLasts(w.log, w'.log, x.cause.ticket);
    }
  }

  // ------------------------------------------------------------------ every step keeps the invariant

  lemma EntriesBelow(sig: Signatures, w: World)
    requires Invariant(sig, w)
    ensures forall i | 0 <= i < |w.effects| :: w.effects[i].ticket.entry < |w.log|
    ensures forall r | !PcIn(w, r).Free? :: PcIn(w, r).ticket.entry < |w.log|
  {
    forall i | 0 <= i < |w.effects| ensures w.effects[i].ticket.entry < |w.log| {
      assert EffectOk(sig, w, w.effects[i]);
    }
    forall r | !PcIn(w, r).Free? ensures PcIn(w, r).ticket.entry < |w.log| {
      assert PcOk(sig, w, PcIn(w, r));
    }
  }

  /** The log grows by one possible transaction. */
  lemma LogKeeps(sig: Signatures, w: World, c: Commit)
    requires Invariant(sig, w) && Possible(Replay(w.log), c) && IssueFits(w.settings, c)
    ensures Invariant(sig, w.(log := w.log + [c]))
  {
    hide AllPossible, PcOk, EffectOk, WriteOk, Possible, UsesEntry, IssueFits;
    var w' := w.(log := w.log + [c]);
    PossibleGrows(w.log, c);
    forall r ensures PcOk(sig, w', PcIn(w', r)) {
      assert PcIn(w', r) == PcIn(w, r) && PcOk(sig, w, PcIn(w, r));
      PcLasts(sig, w, w', PcIn(w, r));
    }
    forall f | f in w'.effects ensures EffectOk(sig, w', f) {
      EffectLasts(sig, w, w', f);
    }
    forall x | x in w'.writes ensures WriteOk(sig, w', x) {
      WriteLasts(sig, w, w', x);
    }
    assert OneUse(w') by {
      assert forall r :: PcIn(w', r) == PcIn(w, r);
    }
  }

  /** A request goes on, with the ticket it had or with the ticket of the transaction just logged. */
  lemma PcKeeps(sig: Signatures, w: World, r: RequestId, pc: Pc)
    requires Invariant(sig, w) && PcOk(sig, w, pc)
    requires pc.Free? || UsesEntry(PcIn(w, r), pc.ticket.entry) || FreshEntry(w, pc.ticket.entry)
    ensures Invariant(sig, SetPc(w, r, pc))
  {
    hide AllPossible, EffectOk, WriteOk, TicketOk, Owned, Proven;
    var w' := SetPc(w, r, pc);
    forall q ensures PcOk(sig, w', PcIn(w', q)) {
      assert PcOk(sig, w, PcIn(w, q));
      PcLasts(sig, w, w', PcIn(w', q));
    }
    forall f | f in w'.effects ensures EffectOk(sig, w', f) {
      EffectLasts(sig, w, w', f);
    }
    forall x | x in w'.writes ensures WriteOk(sig, w', x) {
      WriteLasts(sig, w, w', x);
    }
    PcKeepsUse(w, r, pc);
  }

  /** No request and no effect has the entry. */
  ghost predicate FreshEntry(w: World, entry: nat) {
    && (forall r :: !UsesEntry(PcIn(w, r), entry))
    && (forall i | 0 <= i < |w.effects| :: w.effects[i].ticket.entry != entry)
  }

  lemma PcKeepsUse(w: World, r: RequestId, pc: Pc)
    requires OneUse(w)
    requires pc.Free? || UsesEntry(PcIn(w, r), pc.ticket.entry) || FreshEntry(w, pc.ticket.entry)
    ensures OneUse(SetPc(w, r, pc))
  {
    var w' := SetPc(w, r, pc);
    forall q, i | 0 <= i < |w'.effects| ensures !UsesEntry(PcIn(w', q), w'.effects[i].ticket.entry) {
      assert !UsesEntry(PcIn(w, q), w.effects[i].ticket.entry);
    }
    forall p, q | p != q && !PcIn(w', p).Free? ensures !UsesEntry(PcIn(w', q), PcIn(w', p).ticket.entry) {
      if p != r {
        assert !UsesEntry(PcIn(w, q), PcIn(w, p).ticket.entry);
        if q == r && !pc.Free? {
          assert FreshEntry(w, pc.ticket.entry) ==> !UsesEntry(PcIn(w, p), pc.ticket.entry);
        }
      } else {
        assert FreshEntry(w, pc.ticket.entry) ==> !UsesEntry(PcIn(w, q), pc.ticket.entry);
        assert !PcIn(w, r).Free? ==> !UsesEntry(PcIn(w, q), PcIn(w, r).ticket.entry);
      }
    }
  }

  lemma WriteKeeps(sig: Signatures, w: World, x: Write)
    requires Invariant(sig, w) && WriteOk(sig, w, x)
    ensures Invariant(sig, w.(writes := w.writes + [x]))
  {
    hide AllPossible, PcOk, EffectOk, WriteOk, UsesEntry;
    var w' := w.(writes := w.writes + [x]);
    forall r ensures PcOk(sig, w', PcIn(w', r)) {
      assert PcIn(w', r) == PcIn(w, r) && PcOk(sig, w, PcIn(w, r));
      PcLasts(sig, w, w', PcIn(w, r));
    }
    forall f | f in w'.effects ensures EffectOk(sig, w', f) {
      EffectLasts(sig, w, w', f);
    }
    forall y | y in w'.writes ensures WriteOk(sig, w', y) {
      WriteLasts(sig, w, w', y);
    }
    assert OneUse(w') by {
      assert forall r :: PcIn(w', r) == PcIn(w, r);
    }
  }

  /** A request ends with the effect of its ticket. */
  lemma EffectKeeps(sig: Signatures, w: World, r: RequestId, f: Effect)
    requires Invariant(sig, w) && EffectOk(sig, w, f) && UsesEntry(PcIn(w, r), f.ticket.entry)
    ensures Invariant(sig, SetPc(w, r, Free).(effects := w.effects + [f]))
  {
    hide AllPossible, PcOk, EffectOk, WriteOk;
    var w' := SetPc(w, r, Free).(effects := w.effects + [f]);
    assert PcOk(sig, w', Free) by {
      FreeIsOk(sig, w');
    }
    forall q ensures PcOk(sig, w', PcIn(w', q)) {
      assert PcOk(sig, w, PcIn(w, q));
      PcLasts(sig, w, w', PcIn(w, q));
    }
    forall g | g in w'.effects ensures EffectOk(sig, w', g) {
      EffectLasts(sig, w, w', g);
    }
    forall x | x in w'.writes ensures WriteOk(sig, w', x) {
      WriteLasts(sig, w, w', x);
    }
    EffectKeepsUse(w, r, f);
  }

  lemma FreeIsOk(sig: Signatures, w: World)
    ensures PcOk(sig, w, Free)
  {
  }

  lemma EffectKeepsUse(w: World, r: RequestId, f: Effect)
    requires OneUse(w) && UsesEntry(PcIn(w, r), f.ticket.entry)
    ensures OneUse(SetPc(w, r, Free).(effects := w.effects + [f]))
  {
    var w' := SetPc(w, r, Free).(effects := w.effects + [f]);
    forall i, j | 0 <= i < j < |w'.effects| ensures w'.effects[i].ticket.entry != w'.effects[j].ticket.entry {
      assert !UsesEntry(PcIn(w, r), w.effects[i].ticket.entry);
    }
    forall q, i | 0 <= i < |w'.effects| ensures !UsesEntry(PcIn(w', q), w'.effects[i].ticket.entry) {
      if q != r {
        assert i < |w.effects| ==> !UsesEntry(PcIn(w, q), w.effects[i].ticket.entry);
        assert !UsesEntry(PcIn(w, q), PcIn(w, r).ticket.entry);
      }
    }
    forall p, q | p != q && !PcIn(w', p).Free? ensures !UsesEntry(PcIn(w', q), PcIn(w', p).ticket.entry) {
      assert !UsesEntry(PcIn(w, q), PcIn(w, p).ticket.entry);
    }
  }

  /** Consuming keeps the invariant, and its ticket is a new one. */
  lemma ConsumeKeeps(sig: Signatures, w: World, raw: RawEvent, now: int)
    requires Invariant(sig, w)
    ensures var (w', ticket) := Consume(w, raw, now);
            && Invariant(sig, w') && w'.pcs == w.pcs && w'.settings == w.settings
            && (ticket.Some? ==> TicketOk(w'.log, ticket.value) && FreshEntry(w', ticket.value.entry))
  {
    hide Invariant, Replay;
    var (w', ticket) := Consume(w, raw, now);
    var claimed := ClaimedNonce(raw);
    if claimed.Some? && claimed.value.Str? && claimed.value.s != "" {
      var c := ConsumeCommit(claimed.value.s, now);
      LogKeeps(sig, w, c);
      EntriesBelow(sig, w);
      assert w'.log[..|w.log|] == w.log;
      assert FreshEntry(w', |w.log|) by {
        forall r ensures !UsesEntry(PcIn(w', r), |w.log|) {
          assert PcIn(w', r) == PcIn(w, r);
        }
      }
    }
  }

  lemma PcHolds(sig: Signatures, w: World, r: RequestId)
    requires Invariant(sig, w)
    ensures PcOk(sig, w, PcIn(w, r))
  {
  }

  lemma FindKeeps(sig: Signatures, w: World, r: RequestId)
    requires Invariant(sig, w)
    ensures Invariant(sig, FindStep(sig, w, r))
  {
    hide Invariant, TicketOk, Identities;
    var pc := PcIn(w, r);
    PcHolds(sig, w, r);
    FreeIsOk(sig, w);
    if pc.LoginConsumed? {
      var key := VerifyResponse(sig, pc.raw, pc.ticket.challenge, w.settings.skew);
      var db := Identities(w.writes);
      if key.Thrown? || !HasEnabled(db.rows, key.value) {
        PcKeeps(sig, w, r, Free);
      } else {
        RunIsValid(w.writes);
        var pc' := PcIn(FindStep(sig, w, r), r);
        FoundIsOwned(sig, w, r);
        PcKeeps(sig, w, r, pc');
      }
    }
  }

  lemma {:induction false} RunIsValid(writes: seq<Write>)
    ensures Valid(Identities(writes))
    decreases |writes|
  {
    hide Valid;
    if writes == [] {
      Mappings.Reachable([]);
    } else {
      RunIsValid(writes[..|writes| - 1]);
      TransactionKeeps(Identities(writes[..|writes| - 1]), writes[|writes| - 1].transaction);
    }
  }

  lemma FoundIsOwned(sig: Signatures, w: World, r: RequestId)
    requires PcOk(sig, w, PcIn(w, r)) && PcIn(w, r).LoginConsumed? && Valid(Identities(w.writes))
    requires var key := VerifyResponse(sig, PcIn(w, r).raw, PcIn(w, r).ticket.challenge, w.settings.skew);
             key.Ok? && HasEnabled(Identities(w.writes).rows, key.value)
    ensures var pc' := PcIn(FindStep(sig, w, r), r);
            && PcOk(sig, w, pc') && pc'.LoginFound? && pc'.ticket == PcIn(w, r).ticket
            && FindStep(sig, w, r) == SetPc(w, r, pc')
  {
    hide TicketOk, Identities;
    var pc := PcIn(w, r);
    var pc' := PcIn(FindStep(sig, w, r), r);
    var db := Identities(w.writes);
    assert w.writes[..|w.writes|] == w.writes;
    assert pc'.identity.id in db.rows && db.rows[pc'.identity.id] == pc'.identity;
    assert IsEnabledOwner(db, pc'.event.author, pc'.identity);
    assert Owned(w, pc'.event, pc'.identity.username, pc'.seen);
  }

  lemma LoginKeeps(sig: Signatures, w: World, r: RequestId, now: int, minted: bool)
    requires Invariant(sig, w)
    ensures Invariant(sig, Step(sig, w, TouchFound(r, now)))
    ensures Invariant(sig, Step(sig, w, MintSession(r, minted)))
  {
    hide Invariant, TicketOk, Owned, Proven;
    var pc := PcIn(w, r);
    PcHolds(sig, w, r);
    FreeIsOk(sig, w);
    if pc.LoginFound? {
      ProvenAction(sig, w, pc.event, pc.ticket, LOGIN);
      var next := LoginTouched(pc.event, pc.identity, pc.host, pc.ticket, pc.seen);
      PcKeeps(sig, w, r, next);
      WriteKeeps(sig, SetPc(w, r, next), Write(Touch(pc.identity.id, now), ByLogin(pc.ticket)));
    } else if pc.LoginTouched? {
      PcKeeps(sig, w, r, Free);
      EffectKeeps(sig, w, r, SessionOf(pc));
    }
  }

  lemma ProvenAction(sig: Signatures, w: World, e: Event, t: Ticket, action: string)
    requires Proven(sig, w, e, t, action)
    ensures t.challenge.action == action
  {
  }

  lemma VerifyKeeps(sig: Signatures, w: World, r: RequestId, portal: Option<Username>)
    requires Invariant(sig, w)
    ensures Invariant(sig, Step(sig, w, VerifyLink(r, portal)))
  {
    hide Invariant, TicketOk;
    var pc := PcIn(w, r);
    PcHolds(sig, w, r);
    FreeIsOk(sig, w);
    if pc.LinkConsumed? {
      var key := VerifyResponse(sig, pc.raw, pc.ticket.challenge, w.settings.skew);
      if portal.None? || key.Thrown? {
        PcKeeps(sig, w, r, Free);
      } else {
        PcKeeps(sig, w, r, LinkVerified(sig.parse(pc.raw).value, portal.value, pc.ticket, pc.replace, pc.details));
      }
    }
  }

  lemma WriteStepKeeps(sig: Signatures, w: World, r: RequestId, checked: bool, now: int)
    requires Invariant(sig, w)
    ensures Invariant(sig, WriteStep(w, r, checked, now))
  {
    hide Invariant, TicketOk, Proven, Identities, Mappings.Apply;
    var pc := PcIn(w, r);
    PcHolds(sig, w, r);
    FreeIsOk(sig, w);
    if pc.LinkVerified? {
      var t := if pc.replace then Replace(pc.user, pc.event.author, now, pc.details)
               else Add(pc.user, pc.event.author, now, pc.details);
      if !checked || Mappings.Apply(Identities(w.writes), t) == Identities(w.writes) {
        PcKeeps(sig, w, r, Free);
      } else {
        var x := Write(t, ByLink(pc.ticket, pc.event));
        var w1 := w.(writes := w.writes + [x]);
        assert IsLinkWrite(x, pc.user, pc.event, pc.ticket);
        WriteKeeps(sig, w, x);
        var f := Linked(pc.user, pc.event, pc.ticket, |w.writes|);
        ProvenLasts(sig, w, w1, pc.event, pc.ticket, LINK);
        EffectKeeps(sig, w1, r, f);
      }
    }
  }

  lemma ProvenLasts(sig: Signatures, w: World, w': World, e: Event, t: Ticket, action: string)
    requires Proven(sig, w, e, t, action) && w'.settings == w.settings
    ensures Proven(sig, w', e, t, action)
  {
  }

  lemma IssueKeeps(sig: Signatures, w: World, domain: string, action: string, nonce: Nonce, now: int, pruneNow: int)
    requires Invariant(sig, w)
    ensures Invariant(sig, Step(sig, w, IssueChallenge(domain, action, nonce, now, pruneNow)))
  {
    hide Invariant, Replay, InsertRow;
    var c := NewChallenge(nonce, domain, action, w.settings.ttl, now);
    if Step(sig, w, IssueChallenge(domain, action, nonce, now, pruneNow)) != w {
      LogKeeps(sig, w, IssueCommit(c, pruneNow));
    }
  }

  /** Every step of every request keeps the invariant. */
  lemma StepKeeps(sig: Signatures, w: World, a: Action)
    requires Invariant(sig, w)
    ensures Invariant(sig, Step(sig, w, a))
  {
    hide Invariant, Consume, FindStep, WriteStep, TicketOk, FreshEntry;
    match a
    case IssueChallenge(domain, action, nonce, now, pruneNow) => IssueKeeps(sig, w, domain, action, nonce, now, pruneNow);
    case StartLogin(r, raw, host, now) =>
      if w.settings.allowLogin {
        ConsumeKeeps(sig, w, raw, now);
        var ticket := Consume(w, raw, now).1;
        if ticket.Some? && ticket.value.challenge.action == LOGIN {
          PcKeeps(sig, Consume(w, raw, now).0, r, LoginConsumed(raw, host, ticket.value));
        }
      }
    case FindIdentity(r) => FindKeeps(sig, w, r);
    case TouchFound(r, now) => LoginKeeps(sig, w, r, now, false);
    case MintSession(r, minted) => LoginKeeps(sig, w, r, 0, minted);
    case StartLink(r, raw, replace, details, now) =>
      if w.settings.allowLinking {
        ConsumeKeeps(sig, w, raw, now);
        var ticket := Consume(w, raw, now).1;
        if ticket.Some? && ticket.value.challenge.action == LINK {
          PcKeeps(sig, Consume(w, raw, now).0, r, LinkConsumed(raw, ticket.value, replace, details));
        }
      }
    case VerifyLink(r, portal) => VerifyKeeps(sig, w, r, portal);
    case WriteLink(r, checked, now) => WriteStepKeeps(sig, w, r, checked, now);
    case WriteOther(transaction) => WriteKeeps(sig, w, Write(transaction, ByOther));
    case Stop(r) =>
      FreeIsOk(sig, w);
      PcKeeps(sig, w, r, Free);
  }

  /** The world after any steps of any requests. */
  ghost function After(sig: Signatures, settings: Settings, actions: seq<Action>): World
    decreases |actions|
  {
    if actions == [] then Begin(settings)
    else Step(sig, After(sig, settings, actions[..|actions| - 1]), actions[|actions| - 1])
  }

  lemma {:induction false} RunInvariant(sig: Signatures, settings: Settings, actions: seq<Action>)
    ensures Invariant(sig, After(sig, settings, actions))
    ensures After(sig, settings, actions).settings == settings
    decreases |actions|
  {
    hide Step;
    if actions != [] {
      hide Invariant;
      RunInvariant(sig, settings, actions[..|actions| - 1]);
      var before := After(sig, settings, actions[..|actions| - 1]);
      StepKeeps(sig, before, actions[|actions| - 1]);
      StepGrows(sig, before, actions[|actions| - 1]);
    }
  }

  lemma StepGrows(sig: Signatures, w: World, a: Action)
    ensures Later(w, Step(sig, w, a))
  {
  }
}
