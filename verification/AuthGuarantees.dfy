/**
 What every run of the protocol guarantees: which steps led to a session or to a linked identity, what
 they read, and what follows from that for revoked keys, for accounts, for hosts and for time.
 */
module AuthGuarantees {
  import opened AuthProtocol
  import opened ChallengeStore
  import Log = ChallengeWorkers
  import opened EventVerify
  import opened Mappings
  import opened Outcomes

  // ------------------------------------------------------------------ what an effect rests on

  /** The challenge an effect used up: the transaction that issued it. */
  function Source(w: World, f: Effect): int
    requires f.ticket.entry < |w.log| && w.log[f.ticket.entry].ConsumeCommit?
  {
    Log.Origin(w.log, f.ticket.entry)
  }

  /**
   Every session and every linked identity has used up one issued challenge, of the action that goes
   with it, and rests on an event that its owner signed for that challenge. A session is for the domain
   the challenge was issued for, and for the user who, when the identity was looked up, had an enabled
   one with the key that signed. A linked identity is the write of the key that signed, for that user.
   */
  lemma EffectIsProven(sig: Signatures, settings: Settings, actions: seq<Action>, i: nat)
    requires i < |After(sig, settings, actions).effects|
    ensures var w := After(sig, settings, actions);
            var f := w.effects[i];
            && TicketOk(w.log, f.ticket)
            && 0 <= Source(w, f) < f.ticket.entry && w.log[Source(w, f)].IssueCommit?
            && w.log[Source(w, f)].challenge == f.ticket.challenge
            && f.ticket.challenge.action == (if f.Minted? then "yunohost-login" else "yunohost-link")
            && (if f.Minted? then settings.allowLogin else settings.allowLinking)
            && Attests(sig, f.event, f.ticket.challenge, settings.skew, f.event.author)
            && (f.Minted? ==> f.host == f.ticket.challenge.domain && Owned(w, f.event, f.user, f.seen))
            && (f.Linked? ==> f.write < |w.writes| && IsLinkWrite(w.writes[f.write], f.user, f.event, f.ticket))
  {
    hide Step, PcOk, WriteOk, Log.Replay, Log.AllPossible, AllFit, Attests, Log.Origin, Log.ResultAt, Owned, IsLinkWrite, OneUse;
    RunInvariant(sig, settings, actions);
    var w := After(sig, settings, actions);
    assert EffectOk(sig, w, w.effects[i]);
    Log.OriginIssued(w.log, w.effects[i].ticket.entry);
  }

  /** No two of them have used up the same challenge. */
  lemma EffectsHaveOwnChallenges(sig: Signatures, settings: Settings, actions: seq<Action>, i: nat, j: nat)
    requires i < j < |After(sig, settings, actions).effects|
    ensures var w := After(sig, settings, actions);
            && TicketOk(w.log, w.effects[i].ticket) && TicketOk(w.log, w.effects[j].ticket)
            && Source(w, w.effects[i]) != Source(w, w.effects[j])
  {
    hide After, Log.Replay, Log.AllPossible, AllFit, Log.Origin, PcOk, WriteOk, Log.ResultAt, Proven, Owned, IsLinkWrite;
    RunInvariant(sig, settings, actions);
    var w := After(sig, settings, actions);
    assert EffectOk(sig, w, w.effects[i]) && EffectOk(sig, w, w.effects[j]);
    var e, d := w.effects[i].ticket.entry, w.effects[j].ticket.entry;
    assert e != d;
    if e < d {
      Log.OriginsDiffer(w.log, e, d);
    } else {
      Log.OriginsDiffer(w.log, d, e);
    }
  }

  /** The two tables differ in the date of use of identities, and in nothing else. */
  predicate OnlyDatesDiffer(before: Database, after: Database) {
    && after.rows.Keys == before.rows.Keys && after.lastId == before.lastId && after.version == before.version
    && forall k | k in before.rows :: after.rows[k] == before.rows[k].(lastUsed := after.rows[k].lastUsed)
  }

  /** The use of an identity notes a date and nothing else. */
  lemma TouchOnlyDates(db: Database, id: nat, now: int)
    ensures OnlyDatesDiffer(db, Apply(db, Touch(id, now)))
    ensures id in db.rows && db.rows[id].enabled ==> Apply(db, Touch(id, now)).rows[id].lastUsed == Some(now)
  {
  }

  /** Logins write nothing but such a note; links write only the key that signed for a link challenge. */
  lemma WritesAreCovered(sig: Signatures, settings: Settings, actions: seq<Action>, k: nat)
    requires k < |After(sig, settings, actions).writes|
    ensures var w := After(sig, settings, actions);
            var x := w.writes[k];
            && (x.cause.ByLogin? ==> x.transaction.Touch? && OnlyDatesDiffer(Identities(w.writes[..k]), Identities(w.writes[..k + 1])))
            && (x.cause.ByLink? ==>
                  && x.cause.ticket.challenge.action == LINK && (x.transaction.Replace? || x.transaction.Add?)
                  && Attests(sig, x.cause.event, x.cause.ticket.challenge, settings.skew, x.transaction.pubkey))
  {
    hide After, Attests, PcOk, EffectOk, OneUse, AllFit, TicketOk, OnlyDatesDiffer, Apply;
    RunInvariant(sig, settings, actions);
    var w := After(sig, settings, actions);
    var x := w.writes[k];
    assert WriteOk(sig, w, x);
    if x.cause.ByLogin? {
      TouchOnlyDates(Identities(w.writes[..k]), x.transaction.id, x.transaction.now);
      assert w.writes[..k + 1][..k] == w.writes[..k];
      assert Identities(w.writes[..k + 1]) == Apply(Identities(w.writes[..k]), x.transaction);
    }
  }

  // ------------------------------------------------------------------ one step back

  /** A consume that let a login in was the request's own, and returned the ticket. */
  lemma LoginStarts(sig: Signatures, w: World, a: Action, r: RequestId)
    requires PcIn(Step(sig, w, a), r).LoginConsumed?
    ensures var pc := PcIn(Step(sig, w, a), r);
            || pc == PcIn(w, r)
            || (a == StartLogin(r, pc.raw, pc.host, pc.ticket.at) && pc.ticket.entry == |w.log|)
  {
    hide Log.Replay, Identities, VerifyResponse, Apply, ClaimedNonce, InsertRow;
  }

  lemma LinkStarts(sig: Signatures, w: World, a: Action, r: RequestId)
    requires PcIn(Step(sig, w, a), r).LinkConsumed?
    ensures var pc := PcIn(Step(sig, w, a), r);
            || pc == PcIn(w, r)
            || (a == StartLink(r, pc.raw, pc.replace, pc.details, pc.ticket.at) && pc.ticket.entry == |w.log|)
  {
    hide Log.Replay, Identities, VerifyResponse, Apply, ClaimedNonce, InsertRow;
  }

  /** What a lookup reads: the request has consumed its challenge, and the signer's identity is enabled now. */
  ghost predicate LooksUp(sig: Signatures, w: World, r: RequestId, event: Event, host: string, ticket: Ticket, i: Identity,
                          seen: nat)
  {
    && PcIn(w, r).LoginConsumed? && PcIn(w, r).ticket == ticket && PcIn(w, r).host == host
    && sig.parse(PcIn(w, r).raw) == Some(event)
    && |w.writes| == seen && IsEnabledOwner(Identities(w.writes), event.author, i)
  }

  lemma LookupFinds(sig: Signatures, w: World, a: Action, r: RequestId)
    requires PcIn(Step(sig, w, a), r).LoginFound? && Valid(Identities(w.writes))
    ensures var pc := PcIn(Step(sig, w, a), r);
            || pc == PcIn(w, r)
            || (a == FindIdentity(r) && LooksUp(sig, w, r, pc.event, pc.host, pc.ticket, pc.identity, pc.seen))
  {
    hide Log.Replay, Identities, Apply, ClaimedNonce, InsertRow;
  }

  lemma TouchFollows(sig: Signatures, w: World, a: Action, r: RequestId)
    requires PcIn(Step(sig, w, a), r).LoginTouched?
    ensures var pc := PcIn(Step(sig, w, a), r);
            || pc == PcIn(w, r)
            || PcIn(w, r) == LoginFound(pc.event, pc.identity, pc.host, pc.ticket, pc.seen)
  {
    hide Log.Replay, Identities, VerifyResponse, Apply, ClaimedNonce, InsertRow;
  }

  /** What the verification of a link reads: the request has consumed its challenge, and the portal names the user. */
  ghost predicate Verifies(sig: Signatures, w: World, r: RequestId, event: Event, ticket: Ticket) {
    && PcIn(w, r).LinkConsumed? && PcIn(w, r).ticket == ticket && sig.parse(PcIn(w, r).raw) == Some(event)
  }

  lemma PortalNames(sig: Signatures, w: World, a: Action, r: RequestId)
    requires PcIn(Step(sig, w, a), r).LinkVerified?
    ensures var pc := PcIn(Step(sig, w, a), r);
            || pc == PcIn(w, r)
            || (a == VerifyLink(r, Some(pc.user)) && Verifies(sig, w, r, pc.event, pc.ticket))
  {
    hide Log.Replay, Identities, Apply, ClaimedNonce, InsertRow;
  }

  /** An effect comes from the request that stood just before it. */
  lemma EffectComesFrom(sig: Signatures, w: World, a: Action, f: Effect)
    requires f in Step(sig, w, a).effects && f !in w.effects
    ensures f.Minted? ==> a.MintSession? && PcIn(w, a.r).LoginTouched? && f == SessionOf(PcIn(w, a.r))
    ensures f.Linked? ==>
              && a.WriteLink? && PcIn(w, a.r).LinkVerified? && f.user == PcIn(w, a.r).user
              && f.event == PcIn(w, a.r).event && f.ticket == PcIn(w, a.r).ticket && f.write == |w.writes|
  {
    hide Log.Replay, Identities, VerifyResponse, Apply, ClaimedNonce, InsertRow;
  }

  // ------------------------------------------------------------------ the steps behind a state

  /** The world before the step at place `k`. */
  ghost function At(sig: Signatures, settings: Settings, actions: seq<Action>, k: nat): World
    requires k <= |actions|
  {
    After(sig, settings, actions[..k])
  }

  lemma FrontAt(sig: Signatures, settings: Settings, actions: seq<Action>, k: nat)
    requires k < |actions|
    ensures actions[..|actions| - 1][..k] == actions[..k] && At(sig, settings, actions[..|actions| - 1], k) == At(sig, settings, actions, k)
    ensures k < |actions| - 1 ==> actions[..|actions| - 1][k] == actions[k]
  {
    assert actions[..|actions| - 1][..k] == actions[..k];
  }

  lemma LastStep(sig: Signatures, settings: Settings, actions: seq<Action>)
    requires actions != []
    ensures After(sig, settings, actions) == Step(sig, After(sig, settings, actions[..|actions| - 1]), actions[|actions| - 1])
    ensures At(sig, settings, actions, |actions| - 1) == After(sig, settings, actions[..|actions| - 1])
  {
    hide Step;
  }

  lemma NothingYet(sig: Signatures, settings: Settings)
    ensures After(sig, settings, []) == Begin(settings)
  {
  }

  lemma {:induction false} LoginStarted(sig: Signatures, settings: Settings, actions: seq<Action>, r: RequestId) returns (s: nat)
    requires PcIn(After(sig, settings, actions), r).LoginConsumed?
    ensures var pc := PcIn(After(sig, settings, actions), r);
            && s < |actions| && actions[s] == StartLogin(r, pc.raw, pc.host, pc.ticket.at)
            && |At(sig, settings, actions, s).log| == pc.ticket.entry
    decreases |actions|
  {
    hide After, Step;
    NothingYet(sig, settings);
    LastStep(sig, settings, actions);
    var front := actions[..|actions| - 1];
    LoginStarts(sig, After(sig, settings, front), actions[|actions| - 1], r);
    s := |front|;
    if PcIn(After(sig, settings, actions), r) == PcIn(After(sig, settings, front), r) {
      s := LoginStarted(sig, settings, front, r);
      FrontAt(sig, settings, actions, s);
    }
  }

  lemma {:induction false} LinkStarted(sig: Signatures, settings: Settings, actions: seq<Action>, r: RequestId) returns (s: nat)
    requires PcIn(After(sig, settings, actions), r).LinkConsumed?
    ensures var pc := PcIn(After(sig, settings, actions), r);
            && s < |actions| && actions[s] == StartLink(r, pc.raw, pc.replace, pc.details, pc.ticket.at)
            && |At(sig, settings, actions, s).log| == pc.ticket.entry
    decreases |actions|
  {
    hide After, Step;
    NothingYet(sig, settings);
    LastStep(sig, settings, actions);
    var front := actions[..|actions| - 1];
    LinkStarts(sig, After(sig, settings, front), actions[|actions| - 1], r);
    s := |front|;
    if PcIn(After(sig, settings, actions), r) == PcIn(After(sig, settings, front), r) {
      s := LinkStarted(sig, settings, front, r);
      FrontAt(sig, settings, actions, s);
    }
  }

  lemma {:induction false} LookedUp(sig: Signatures, settings: Settings, actions: seq<Action>, r: RequestId) returns (k: nat)
    requires PcIn(After(sig, settings, actions), r).LoginFound? || PcIn(After(sig, settings, actions), r).LoginTouched?
    ensures var pc := PcIn(After(sig, settings, actions), r);
            && k < |actions| && actions[k] == FindIdentity(r)
            && LooksUp(sig, At(sig, settings, actions, k), r, pc.event, pc.host, pc.ticket, pc.identity, pc.seen)
    decreases |actions|
  {
    hide After, Step, LooksUp, Valid;
    NothingYet(sig, settings);
    LastStep(sig, settings, actions);
    var front, a := actions[..|actions| - 1], actions[|actions| - 1];
    var before := After(sig, settings, front);
    RunIsValid(before.writes);
    k := |front|;
    var pc := PcIn(Step(sig, before, a), r);
    if pc.LoginFound? {
      LookupFinds(sig, before, a, r);
    } else {
      TouchFollows(sig, before, a, r);
    }
    if pc == PcIn(before, r) || pc.LoginTouched? {
      k := LookedUp(sig, settings, front, r);
      FrontAt(sig, settings, actions, k);
    }
  }

  lemma {:induction false} PortalNamed(sig: Signatures, settings: Settings, actions: seq<Action>, r: RequestId) returns (k: nat)
    requires PcIn(After(sig, settings, actions), r).LinkVerified?
    ensures var pc := PcIn(After(sig, settings, actions), r);
            && k < |actions| && actions[k] == VerifyLink(r, Some(pc.user))
            && Verifies(sig, At(sig, settings, actions, k), r, pc.event, pc.ticket)
    decreases |actions|
  {
    hide After, Step, Verifies;
    NothingYet(sig, settings);
    LastStep(sig, settings, actions);
    var front, a := actions[..|actions| - 1], actions[|actions| - 1];
    PortalNames(sig, After(sig, settings, front), a, r);
    k := |front|;
    if PcIn(After(sig, settings, actions), r) == PcIn(After(sig, settings, front), r) {
      k := PortalNamed(sig, settings, front, r);
      FrontAt(sig, settings, actions, k);
    }
  }

  /** The step that had the effect. */
  lemma {:induction false} EffectMade(sig: Signatures, settings: Settings, actions: seq<Action>, f: Effect) returns (m: nat)
    requires f in After(sig, settings, actions).effects
    ensures m < |actions| && f !in At(sig, settings, actions, m).effects
    ensures f in Step(sig, At(sig, settings, actions, m), actions[m]).effects
    decreases |actions|
  {
    hide After, Step;
    NothingYet(sig, settings);
    LastStep(sig, settings, actions);
    var front := actions[..|actions| - 1];
    m := |front|;
    if f in After(sig, settings, front).effects {
      m := EffectMade(sig, settings, front, f);
      FrontAt(sig, settings, actions, m);
    }
  }

  lemma {:induction false} GrowsAlong(sig: Signatures, settings: Settings, actions: seq<Action>, k: nat)
    requires k <= |actions|
    ensures Later(At(sig, settings, actions, k), After(sig, settings, actions))
    decreases |actions|
  {
    hide After, Step;
    if k == |actions| {
      assert actions[..k] == actions;
    } else {
      LastStep(sig, settings, actions);
      FrontAt(sig, settings, actions, k);
      GrowsAlong(sig, settings, actions[..|actions| - 1], k);
      StepGrows(sig, After(sig, settings, actions[..|actions| - 1]), actions[|actions| - 1]);
    }
  }

  lemma GrowsBetween(sig: Signatures, settings: Settings, actions: seq<Action>, j: nat, k: nat)
    requires j <= k <= |actions|
    ensures Later(At(sig, settings, actions, j), At(sig, settings, actions, k))
  {
    hide After;
    assert actions[..k][..j] == actions[..j];
    GrowsAlong(sig, settings, actions[..k], j);
  }

  // ------------------------------------------------------------------ sessions

  /**
   The steps behind a session, all of one request: its consume, which returned the challenge of the
   session, then its lookup, which found the signer's identity enabled and owned by the session's user.
   */
  ghost predicate SessionSteps(sig: Signatures, settings: Settings, actions: seq<Action>, f: Effect, r: RequestId, s: nat, k: nat)
    requires f.Minted?
  {
    && s < k < |actions|
    && actions[s].StartLogin? && actions[s].r == r && actions[s].host == f.cookieHost && actions[s].now == f.ticket.at
    && sig.parse(actions[s].raw) == Some(f.event) && |At(sig, settings, actions, s).log| == f.ticket.entry
    && actions[k] == FindIdentity(r)
    && exists i: Identity :: i.username == f.user && LooksUp(sig, At(sig, settings, actions, k), r, f.event, f.cookieHost, f.ticket, i, f.seen)
  }

  lemma SessionTraced(sig: Signatures, settings: Settings, actions: seq<Action>, f: Effect)
      returns (r: RequestId, s: nat, k: nat)
    requires f in After(sig, settings, actions).effects && f.Minted?
    ensures SessionSteps(sig, settings, actions, f, r, s, k)
  {
    hide After, Step, IsEnabledOwner;
    var m := EffectMade(sig, settings, actions, f);
    var w := At(sig, settings, actions, m);
    EffectComesFrom(sig, w, actions[m], f);
    r := actions[m].r;
    var pc := PcIn(w, r);
    k := LookedUp(sig, settings, actions[..m], r);
    assert actions[..m][..k] == actions[..k];
    assert pc.identity.username == f.user && LooksUp(sig, At(sig, settings, actions, k), r, f.event, f.cookieHost, f.ticket, pc.identity, f.seen);
    s := LoginStarted(sig, settings, actions[..k], r);
    assert actions[..k][..s] == actions[..s];
  }

  function Transactions(writes: seq<Write>): seq<Transaction> {
    seq(|writes|, j requires 0 <= j < |writes| => writes[j].transaction)
  }

  lemma {:induction false} IdentitiesOn(writes: seq<Write>, more: seq<Write>)
    ensures Identities(writes + more) == Run(Identities(writes), Transactions(more))
    decreases |more|
  {
    hide Apply;
    if more == [] {
      assert writes + more == writes;
    } else {
      var front, last := more[..|more| - 1], more[|more| - 1];
      IdentitiesOn(writes, front);
      assert (writes + more)[..|writes + more| - 1] == writes + front;
      assert Transactions(more)[..|more| - 1] == Transactions(front);
      assert Identities(writes + more) == Apply(Identities(writes + front), last.transaction);
    }
  }

  /** The identities as the request found them when it consumed its challenge, without the key among the enabled ones. */
  ghost predicate NotEnabledAt(sig: Signatures, settings: Settings, actions: seq<Action>, s: nat, pubkey: Pubkey)
    requires s <= |actions|
  {
    !HasEnabled(Identities(At(sig, settings, actions, s).writes).rows, pubkey)
  }

  /**
   A key that was disabled or deleted before the challenge was consumed does not lead to a session:
   between the consume and the lookup, a transaction must have linked it again.
   */
  lemma RevokedKeyNeedsLinking(sig: Signatures, settings: Settings, actions: seq<Action>, f: Effect, r: RequestId, s: nat, k: nat)
    requires f.Minted? && SessionSteps(sig, settings, actions, f, r, s, k)
    requires NotEnabledAt(sig, settings, actions, s, f.event.author)
    ensures var before, found := At(sig, settings, actions, s).writes, At(sig, settings, actions, k).writes;
            && before <= found <= After(sig, settings, actions).writes && |found| == f.seen
            && exists j :: |before| <= j < |found| && Introduces(found[j].transaction, f.event.author)
  {
    hide After, Identities, Run, Introduces, Valid;
    var before, found := At(sig, settings, actions, s).writes, At(sig, settings, actions, k).writes;
    GrowsBetween(sig, settings, actions, s, k);
    GrowsAlong(sig, settings, actions, k);
    var more := found[|before|..];
    assert found == before + more;
    IdentitiesOn(before, more);
    RunIsValid(before);
    var i: Identity :| i.username == f.user && LooksUp(sig, At(sig, settings, actions, k), r, f.event, f.cookieHost, f.ticket, i, f.seen);
    assert HasEnabled(Identities(found).rows, f.event.author);
    EnabledBefore(Identities(before), Transactions(more), f.event.author);
    var j :| 0 <= j < |more| && Introduces(Transactions(more)[j], f.event.author);
    assert found[|before| + j] == more[j];
  }

  // ------------------------------------------------------------------ links

  /**
   The steps behind a linked identity, all of one request: its consume, which returned the challenge,
   then its verification, for which the portal named the user.
   */
  ghost predicate LinkSteps(sig: Signatures, settings: Settings, actions: seq<Action>, f: Effect, r: RequestId, s: nat, k: nat)
    requires f.Linked?
  {
    && s < k < |actions|
    && actions[s].StartLink? && actions[s].r == r && actions[s].now == f.ticket.at
    && sig.parse(actions[s].raw) == Some(f.event) && |At(sig, settings, actions, s).log| == f.ticket.entry
    && actions[k] == VerifyLink(r, Some(f.user)) && Verifies(sig, At(sig, settings, actions, k), r, f.event, f.ticket)
  }

  /** Nobody's account is linked without the portal having named its user to the request that links it. */
  lemma LinksAreVouched(sig: Signatures, settings: Settings, actions: seq<Action>, f: Effect)
      returns (r: RequestId, s: nat, k: nat)
    requires f in After(sig, settings, actions).effects && f.Linked?
    ensures LinkSteps(sig, settings, actions, f, r, s, k)
  {
    hide After, Step;
    var m := EffectMade(sig, settings, actions, f);
    var w := At(sig, settings, actions, m);
    EffectComesFrom(sig, w, actions[m], f);
    r := actions[m].r;
    k := PortalNamed(sig, settings, actions[..m], r);
    assert actions[..m][..k] == actions[..k];
    s := LinkStarted(sig, settings, actions[..k], r);
    assert actions[..k][..s] == actions[..s];
  }

  // ------------------------------------------------------------------ the request that asked for the challenge

  lemma LogStep(sig: Signatures, w: World, a: Action, q: nat)
    requires q < |Step(sig, w, a).log| && Step(sig, w, a).log[q].IssueCommit?
    ensures q < |w.log| ==> Step(sig, w, a).log[q] == w.log[q]
    ensures q >= |w.log| ==>
              q == |w.log| && a.IssueChallenge? && Step(sig, w, a).log[q] == Log.IssueCommit(NewChallenge(a.nonce, a.domain, a.action, w.settings.ttl, a.now), a.pruneNow)
  {
    hide Log.Replay, Identities, VerifyResponse, Apply, ClaimedNonce, InsertRow;
  }

  /** The step that issued a challenge of the log. */
  lemma {:induction false} IssueTraced(sig: Signatures, settings: Settings, actions: seq<Action>, q: nat) returns (m: nat)
    requires q < |After(sig, settings, actions).log| && After(sig, settings, actions).log[q].IssueCommit?
    ensures m < |actions| && actions[m].IssueChallenge? && |At(sig, settings, actions, m).log| == q
    ensures var a := actions[m];
            After(sig, settings, actions).log[q].challenge == NewChallenge(a.nonce, a.domain, a.action, settings.ttl, a.now)
    decreases |actions|
  {
    hide After, Step;
    NothingYet(sig, settings);
    LastStep(sig, settings, actions);
    var front := actions[..|actions| - 1];
    LogStep(sig, After(sig, settings, front), actions[|actions| - 1], q);
    RunInvariant(sig, settings, front);
    m := |front|;
    if q < |After(sig, settings, front).log| {
      m := IssueTraced(sig, settings, front, q);
      FrontAt(sig, settings, actions, m);
    }
  }

  /** The step that issued the challenge of an effect, before the consume that used it up. */
  ghost predicate IssueStep(sig: Signatures, settings: Settings, actions: seq<Action>, f: Effect, m: nat) {
    && m < |actions| && actions[m].IssueChallenge?
    && |At(sig, settings, actions, m).log| < f.ticket.entry
    && var a := actions[m];
       f.ticket.challenge == NewChallenge(a.nonce, a.domain, a.action, settings.ttl, a.now)
  }

  lemma ChallengeTraced(sig: Signatures, settings: Settings, actions: seq<Action>, i: nat) returns (m: nat)
    requires i < |After(sig, settings, actions).effects|
    ensures var w := After(sig, settings, actions);
            && TicketOk(w.log, w.effects[i].ticket)
            && IssueStep(sig, settings, actions, w.effects[i], m)
            && |At(sig, settings, actions, m).log| == Source(w, w.effects[i])
  {
    hide After, Attests, Owned, Log.Origin, Log.Replay, Log.ResultAt;
    EffectIsProven(sig, settings, actions, i);
    var w := After(sig, settings, actions);
    m := IssueTraced(sig, settings, actions, Source(w, w.effects[i]));
  }

  /**
   A session is for the Host of the request that asked for the challenge, its cookie for the Host of the
   login request: the two agree exactly when the two requests name the same Host.
   */
  lemma CookieHostFits(sig: Signatures, settings: Settings, actions: seq<Action>, i: nat)
      returns (m: nat, r: RequestId, s: nat, k: nat)
    requires i < |After(sig, settings, actions).effects| && After(sig, settings, actions).effects[i].Minted?
    ensures var f := After(sig, settings, actions).effects[i];
            && IssueStep(sig, settings, actions, f, m) && SessionSteps(sig, settings, actions, f, r, s, k)
            && (f.cookieHost == f.host <==> actions[s].host == actions[m].domain)
  {
    hide After, TicketOk, Attests, Owned, Log.Origin;
    var f := After(sig, settings, actions).effects[i];
    EffectIsProven(sig, settings, actions, i);
    m := ChallengeTraced(sig, settings, actions, i);
    r, s, k := SessionTraced(sig, settings, actions, f);
  }

  // ------------------------------------------------------------------ time

  function Distance(a: int, b: int): int {
    if a < b then b - a else a - b
  }

  /**
   An event is never older, when its challenge is consumed, than the life of a challenge and the skew;
   and if the clock was not set back since the challenge was issued, it is no further ahead either: 420
   seconds at most.
   */
  lemma EventIsRecent(sig: Signatures, settings: Settings, actions: seq<Action>, i: nat)
    requires ValidSettings(settings) && i < |After(sig, settings, actions).effects|
    ensures var f := After(sig, settings, actions).effects[i];
            && f.ticket.at - f.event.createdAt <= settings.ttl + settings.skew <= 420
            && (f.ticket.challenge.issuedAt <= f.ticket.at ==>
                  Distance(f.event.createdAt, f.ticket.at) <= settings.ttl + settings.skew)
  {
    hide After, PcOk, WriteOk, OneUse, Log.Replay, Log.AllPossible, Log.ResultAt, Log.Origin;
    RunInvariant(sig, settings, actions);
    var w := After(sig, settings, actions);
    var f := w.effects[i];
    assert EffectOk(sig, w, f);
    Log.OriginIssued(w.log, f.ticket.entry);
    assert IssueFits(settings, w.log[Source(w, f)]);
  }

  /** No login or link reads a time before that of an earlier issue. */
  predicate ReadInOrder(actions: seq<Action>) {
    forall m, s | 0 <= m < s < |actions| && actions[m].IssueChallenge? && (actions[s].StartLogin? || actions[s].StartLink?) ::
      actions[m].now <= actions[s].now
  }

  /** As long as the clock is read in that order, no event is further from its consume than that. */
  lemma EventIsRecentInOrder(sig: Signatures, settings: Settings, actions: seq<Action>, i: nat)
    requires ValidSettings(settings) && ReadInOrder(actions) && i < |After(sig, settings, actions).effects|
    ensures var f := After(sig, settings, actions).effects[i];
            Distance(f.event.createdAt, f.ticket.at) <= settings.ttl + settings.skew <= 420
  {
    hide After, Source, Log.Replay, Log.ResultAt, Later, Verifies, LooksUp;
    var f := After(sig, settings, actions).effects[i];
    var m := ChallengeTraced(sig, settings, actions, i);
    var r, s, k;
    if f.Minted? {
      r, s, k := SessionTraced(sig, settings, actions, f);
    } else {
      r, s, k := LinksAreVouched(sig, settings, actions, f);
    }
    if s <= m {
      ShorterLog(sig, settings, actions, s, m);
    }
    assert actions[m].now <= actions[s].now;
    EventIsRecent(sig, settings, actions, i);
  }

  lemma ShorterLog(sig: Signatures, settings: Settings, actions: seq<Action>, j: nat, k: nat)
    requires j <= k <= |actions|
    ensures |At(sig, settings, actions, j).log| <= |At(sig, settings, actions, k).log|
  {
    hide After;
    GrowsBetween(sig, settings, actions, j, k);
  }

  // ------------------------------------------------------------------ what goes through

  /** The request presents a nonce whose challenge is there, in time, and for the action, with an event that attests to it. */
  ghost predicate Presents(sig: Signatures, w: World, raw: RawEvent, now: int, c: Challenge, e: Event, action: string) {
    && c.action == action && c.nonce != "" && ClaimedNonce(raw) == Some(Str(c.nonce))
    && ConsumeResult(Log.Replay(w.log), c.nonce, now) == Some(c)
    && sig.parse(raw) == Some(e) && Attests(sig, e, c, w.settings.skew, e.author)
  }

  /** From any world on, such a login of an enabled key goes through, unless minting fails or somebody interferes. */
  lemma LoginSucceeds(sig: Signatures, w: World, r: RequestId, raw: RawEvent, host: string, now: int, touchNow: int,
                      minted: bool, c: Challenge, e: Event) returns (owner: Identity)
    requires PcIn(w, r).Free? && w.settings.allowLogin && Presents(sig, w, raw, now, c, e, "yunohost-login")
    requires HasEnabled(Identities(w.writes).rows, e.author)
    ensures IsEnabledOwner(Identities(w.writes), e.author, owner)
    ensures var w1 := Step(sig, w, StartLogin(r, raw, host, now));
            var w2 := Step(sig, w1, FindIdentity(r));
            var w3 := Step(sig, w2, TouchFound(r, touchNow));
            var w4 := Step(sig, w3, MintSession(r, minted));
            var ticket := Ticket(c, |w.log|, now);
            && PcIn(w4, r).Free?
            && w4.writes == w.writes + [Write(Touch(owner.id, touchNow), ByLogin(ticket))]
            && w4.effects == if minted then w.effects + [Minted(owner.username, c.domain, host, e, ticket, |w.writes|)]
                             else w.effects
  {
    hide Identities, Log.Replay, TagValue, Valid;
    RunIsValid(w.writes);
    AcceptedIffAttested(sig, raw, c, w.settings.skew, e.author);
    var w1 := Step(sig, w, StartLogin(r, raw, host, now));
    assert PcIn(w1, r) == LoginConsumed(raw, host, Ticket(c, |w.log|, now)) && w1.writes == w.writes && w1.effects == w.effects;
    owner := OwnerLookedUp(sig, w1, r, e);
  }

  lemma OwnerLookedUp(sig: Signatures, w: World, r: RequestId, e: Event) returns (owner: Identity)
    requires PcIn(w, r).LoginConsumed? && Valid(Identities(w.writes)) && HasEnabled(Identities(w.writes).rows, e.author)
    requires sig.parse(PcIn(w, r).raw) == Some(e)
    requires VerifyResponse(sig, PcIn(w, r).raw, PcIn(w, r).ticket.challenge, w.settings.skew) == Ok(e.author)
    ensures IsEnabledOwner(Identities(w.writes), e.author, owner)
    ensures Step(sig, w, FindIdentity(r))
            == SetPc(w, r, LoginFound(e, owner, PcIn(w, r).host, PcIn(w, r).ticket, |w.writes|))
  {
    hide Identities, VerifyResponse;
    owner := PcIn(FindStep(sig, w, r), r).identity;
  }

  /** What linking asks of the table: replacing, that the key is nobody else's; adding, that it is nobody's. */
  predicate MayLink(db: Database, user: Username, pubkey: Pubkey, replace: bool) {
    if replace then !OwnedByOther(db.rows, pubkey, user) else !Taken(db.rows, pubkey)
  }

  /** From any world on, a link for which the portal names a user goes through, and the user then owns the key. */
  lemma LinkSucceeds(sig: Signatures, w: World, r: RequestId, raw: RawEvent, replace: bool, details: Details, now: int,
                     user: Username, writeNow: int, c: Challenge, e: Event)
    requires PcIn(w, r).Free? && w.settings.allowLinking && Presents(sig, w, raw, now, c, e, "yunohost-link")
    requires MayLink(Identities(w.writes), user, e.author, replace)
    ensures var w1 := Step(sig, w, StartLink(r, raw, replace, details, now));
            var w2 := Step(sig, w1, VerifyLink(r, Some(user)));
            var w3 := Step(sig, w2, WriteLink(r, true, writeNow));
            var ticket := Ticket(c, |w.log|, now);
            var t := if replace then Replace(user, e.author, writeNow, details) else Add(user, e.author, writeNow, details);
            && PcIn(w3, r).Free? && w3.writes == w.writes + [Write(t, ByLink(ticket, e))]
            && w3.effects == w.effects + [Linked(user, e, ticket, |w.writes|)]
            && OwnedBy(Identities(w3.writes).rows, e.author, user)
  {
    hide Identities, Log.Replay, TagValue, Valid, Apply, OwnedBy;
    RunIsValid(w.writes);
    AcceptedIffAttested(sig, raw, c, w.settings.skew, e.author);
    var db := Identities(w.writes);
    var t := if replace then Replace(user, e.author, writeNow, details) else Add(user, e.author, writeNow, details);
    LinkWrites(db, user, e.author, replace, writeNow, details);
    var w1 := Step(sig, w, StartLink(r, raw, replace, details, now));
    var ticket := Ticket(c, |w.log|, now);
    assert PcIn(w1, r) == LinkConsumed(raw, ticket, replace, details) && w1.writes == w.writes && w1.effects == w.effects;
    var w2 := Step(sig, w1, VerifyLink(r, Some(user)));
    assert PcIn(w2, r) == LinkVerified(e, user, ticket, replace, details) && w2.writes == w.writes && w2.effects == w.effects;
    IdentitiesAfter(w.writes, Write(t, ByLink(ticket, e)));
  }

  lemma IdentitiesAfter(writes: seq<Write>, x: Write)
    ensures Identities(writes + [x]) == Apply(Identities(writes), x.transaction)
  {
    hide Apply;
    assert (writes + [x])[..|writes|] == writes;
  }

  lemma LinkWrites(db: Database, user: Username, pubkey: Pubkey, replace: bool, now: int, details: Details)
    requires Valid(db) && MayLink(db, user, pubkey, replace)
    ensures var after := Apply(db, if replace then Replace(user, pubkey, now, details) else Add(user, pubkey, now, details));
            after != db && OwnedBy(after.rows, pubkey, user)
  {
    if replace {
      LinkOutcome(db, user, pubkey, now, details);
      assert Apply(db, Replace(user, pubkey, now, details)).lastId == db.lastId + 1;
    } else {
      var after := Apply(db, Add(user, pubkey, now, details));
      assert db.lastId + 1 in after.rows && after.rows[db.lastId + 1].username == user && after.rows[db.lastId + 1].pubkey == pubkey;
    }
  }

  // ------------------------------------------------------------------ one login, step by step

  const DETAILS: Details := Details("nip07", None, "self-service")

  /** A signer whose every event is good, and names the challenge `n` of the host `a`. */
  function Signer(createdAt: int): Signatures {
    var e := Event("key", CHALLENGE_EVENT_KIND, createdAt, [["challenge", "n"], ["domain", "a"], ["action", LOGIN]]);
    Signatures(raw => Some(e), signed => true)
  }

  const RAW: RawEvent := RawEvent(Some([Some([Str("challenge"), Str("n")])]), 0)

  /** Linked by an administrator, asks at host `a` for a challenge, and logs in at `host`. */
  function OneLogin(host: string, issuedAt: int, at: int): seq<Action> {
    [WriteOther(LINKED_WRITE.transaction),
     IssueChallenge("a", LOGIN, "n", issuedAt, issuedAt),
     StartLogin(0, RAW, host, at),
     FindIdentity(0),
     TouchFound(0, at),
     MintSession(0, true)]
  }

  function OneChallenge(settings: Settings, issuedAt: int): Challenge {
    NewChallenge("n", "a", LOGIN, settings.ttl, issuedAt)
  }

  const OWNER: Identity := NewIdentity(1, "user", "key", 0, None, true, DETAILS)

  const LINKED_WRITE: Write := Write(Add("user", "key", 0, DETAILS), ByOther)

  lemma OwnerLinked()
    ensures Identities([LINKED_WRITE]).rows == map[1 := OWNER]
  {
    var writes := [LINKED_WRITE];
    assert writes[..0] == [] && Identities(writes[..0]) == EMPTY;
    assert Identities(writes) == Apply(EMPTY, LINKED_WRITE.transaction);
  }

  lemma OneReplayed(settings: Settings, issuedAt: int)
    ensures Log.Replay([Log.IssueCommit(OneChallenge(settings, issuedAt), issuedAt)]) == map["n" := Row(OneChallenge(settings, issuedAt), None)]
  {
    var log := [Log.IssueCommit(OneChallenge(settings, issuedAt), issuedAt)];
    assert log[..0] == [] && Log.Replay(log[..0]) == map[];
    assert Log.Replay(log) == Log.Apply(map[], log[0]);
  }

  lemma ChallengeIssued(sig: Signatures, settings: Settings, host: string, issuedAt: int, at: int)
    requires settings.allowLogin
    ensures At(sig, settings, OneLogin(host, issuedAt, at), 2)
            == World(settings, [Log.IssueCommit(OneChallenge(settings, issuedAt), issuedAt)], [LINKED_WRITE], map[], [])
  {
    hide Identities;
    var actions := OneLogin(host, issuedAt, at);
    assert actions[..2][..1] == actions[..1] && actions[..1][..0] == [];
    NothingYet(sig, settings);
    var w1 := At(sig, settings, actions, 1);
    assert w1 == Step(sig, Begin(settings), actions[0]);
    assert w1 == World(settings, [], [LINKED_WRITE], map[], []);
    assert Log.Replay([]) == map[];
    assert At(sig, settings, actions, 2) == Step(sig, w1, actions[1]);
  }

  function OneTicket(settings: Settings, issuedAt: int, at: int): Ticket {
    Ticket(OneChallenge(settings, issuedAt), 1, at)
  }

  lemma ChallengeConsumed(sig: Signatures, settings: Settings, host: string, issuedAt: int, at: int)
    requires settings.allowLogin && at <= issuedAt + settings.ttl
    ensures var w := At(sig, settings, OneLogin(host, issuedAt, at), 3);
            && PcIn(w, 0) == LoginConsumed(RAW, host, OneTicket(settings, issuedAt, at)) && w.settings == settings
            && |w.writes| == 1 && Identities(w.writes).rows == map[1 := OWNER] && w.effects == []
  {
    hide Log.Replay, Identities;
    var actions := OneLogin(host, issuedAt, at);
    ChallengeIssued(sig, settings, host, issuedAt, at);
    OneReplayed(settings, issuedAt);
    OwnerLinked();
    assert actions[..3][..2] == actions[..2];
    assert ClaimedNonce(RAW) == Some(Str("n"));
    var w2 := At(sig, settings, actions, 2);
    assert At(sig, settings, actions, 3) == Step(sig, w2, actions[2]);
  }

  lemma EventNames(tags: seq<seq<string>>)
    requires tags == [["challenge", "n"], ["domain", "a"], ["action", LOGIN]]
    ensures TagValue(tags, "challenge") == Some("n") && TagValue(tags, "domain") == Some("a") && TagValue(tags, "action") == Some(LOGIN)
  {
    assert "challenge"[0] == 'c' && "domain"[0] == 'd' && "action"[0] == 'a';
    assert tags[1..][0] == tags[1] && tags[1..][1..][0] == tags[2];
    assert Names(tags[0], "challenge") && Names(tags[1], "domain") && Names(tags[2], "action");
    assert !Names(tags[0], "domain") && !Names(tags[0], "action") && !Names(tags[1], "action");
    assert TagValue(tags[1..], "action") == TagValue(tags[1..][1..], "action");
  }

  lemma EventAccepted(settings: Settings, issuedAt: int, createdAt: int)
    requires issuedAt - settings.skew <= createdAt <= issuedAt + settings.ttl + settings.skew
    ensures VerifyResponse(Signer(createdAt), RAW, OneChallenge(settings, issuedAt), settings.skew) == Ok("key")
  {
    hide TagValue;
    EventNames(Signer(createdAt).parse(RAW).value.tags);
  }

  lemma OwnerFound(settings: Settings, host: string, issuedAt: int, at: int, createdAt: int)
    requires settings.allowLogin && at <= issuedAt + settings.ttl && issuedAt - settings.skew <= createdAt <= issuedAt + settings.ttl + settings.skew
    ensures var w := At(Signer(createdAt), settings, OneLogin(host, issuedAt, at), 4);
            PcIn(w, 0) == LoginFound(Signer(createdAt).parse(RAW).value, OWNER, host, OneTicket(settings, issuedAt, at), 1) && w.effects == []
  {
    hide Identities, VerifyResponse, TagValue;
    var sig, actions := Signer(createdAt), OneLogin(host, issuedAt, at);
    ChallengeConsumed(sig, settings, host, issuedAt, at);
    EventAccepted(settings, issuedAt, createdAt);
    assert actions[..4][..3] == actions[..3];
    var w3 := At(sig, settings, actions, 3);
    assert At(sig, settings, actions, 4) == FindStep(sig, w3, 0);
    var rows := Identities(w3.writes).rows;
    assert 1 in rows && rows[1].pubkey == "key" && rows[1].enabled;
  }

  /** The login goes through, as long as the challenge has not expired and the event is in time. */
  lemma OneLoginMints(settings: Settings, host: string, issuedAt: int, at: int, createdAt: int)
    requires settings.allowLogin && at <= issuedAt + settings.ttl && issuedAt - settings.skew <= createdAt <= issuedAt + settings.ttl + settings.skew
    ensures var w := After(Signer(createdAt), settings, OneLogin(host, issuedAt, at));
            w.effects == [Minted("user", "a", host, Signer(createdAt).parse(RAW).value, OneTicket(settings, issuedAt, at), 1)]
  {
    hide Signer, Identities, VerifyResponse;
    var sig, actions := Signer(createdAt), OneLogin(host, issuedAt, at);
    OwnerFound(settings, host, issuedAt, at, createdAt);
    assert actions[..5][..4] == actions[..4] && actions[..6][..5] == actions[..5] && actions[..6] == actions;
    var w4, w5 := At(sig, settings, actions, 4), At(sig, settings, actions, 5);
    assert w5 == Step(sig, w4, TouchFound(0, at));
    assert After(sig, settings, actions) == Step(sig, w5, MintSession(0, true));
  }

  /** A challenge asked for at host `a` logs in at any other: the session is for `a`, the cookie for the other. */
  lemma CookieForOtherHost(settings: Settings, host: string)
    requires ValidSettings(settings) && settings.allowLogin && host != "a"
    ensures var w := After(Signer(0), settings, OneLogin(host, 0, 0));
            |w.effects| == 1 && w.effects[0].Minted? && w.effects[0].host == "a" && w.effects[0].cookieHost == host
  {
    OneLoginMints(settings, host, 0, 0, 0);
  }

  /**
   Under every settings that allow logins, whenever the consume reads an earlier time than the issue, by
   however little, there is an event that is accepted and lies further ahead than time to live and skew.
   */
  lemma EventFromFuture(settings: Settings, issuedAt: int, at: int)
    requires ValidSettings(settings) && settings.allowLogin && at < issuedAt
    ensures var createdAt := issuedAt + settings.ttl + settings.skew;
            var w := After(Signer(createdAt), settings, OneLogin("a", issuedAt, at));
            && |w.effects| == 1 && w.effects[0].ticket.at == at && w.effects[0].ticket.challenge.issuedAt == issuedAt
            && w.effects[0].event.createdAt == createdAt && Distance(createdAt, at) > settings.ttl + settings.skew
  {
    OneLoginMints(settings, "a", issuedAt, at, issuedAt + settings.ttl + settings.skew);
  }
}
