/**
 Login, linking and unlinking as one call each, on the stores themselves (`login`, `linking` and the
 endpoints that call them). The portal and the minting of sessions are oracles.
 */
module Endpoints {
  import opened ChallengeStore
  import opened EventVerify
  import opened MappingStore
  import opened Mappings
  import opened Outcomes
  import AuthProtocol

  datatype Session = Session(user: Username, host: string)

  /** The key that answers the challenge, if the challenge is for the action and the event is good. */
  function Signer(sig: Signatures, challenge: Option<Challenge>, raw: RawEvent, action: string, skew: int): Option<Pubkey> {
    if challenge.None? || challenge.value.action != action then None
    else
      var key := VerifyResponse(sig, raw, challenge.value, skew);
      if key.Thrown? then None else Some(key.value)
  }

  /** The nonce an event claims, if it is one that can be looked up at all. */
  function LookupNonce(raw: RawEvent): Option<Nonce> {
    var claimed := ClaimedNonce(raw);
    if claimed.None? || !claimed.value.Str? || claimed.value.s == "" then None else Some(claimed.value.s)
  }

  /** What the table of challenges returns for the event's nonce. */
  function Lookup(t: Table, raw: RawEvent, now: int): Option<Challenge> {
    var nonce := LookupNonce(raw);
    if nonce.None? then None else ConsumeResult(t, nonce.value, now)
  }

  /** The signer of a response: whoever attests to the challenge, if it was issued for the action. */
  lemma SignerAttests(sig: Signatures, challenge: Option<Challenge>, raw: RawEvent, action: string, skew: int, key: Pubkey)
    ensures Signer(sig, challenge, raw, action, skew) == Some(key) <==>
              && challenge.Some? && challenge.value.action == action
              && sig.parse(raw).Some? && Attests(sig, sig.parse(raw).value, challenge.value, skew, key)
  {
    if challenge.Some? {
      AcceptedIffAttested(sig, raw, challenge.value, skew, key);
    }
  }

  /** What is looked up: the row of the nonce that the event's first challenge tag names, if it is a string and not empty. */
  lemma LookupOfClaimed(t: Table, raw: RawEvent, now: int)
    ensures forall n | n != "" && ClaimedNonce(raw) == Some(Str(n)) :: Lookup(t, raw, now) == ConsumeResult(t, n, now)
    ensures (forall n :: n != "" ==> ClaimedNonce(raw) != Some(Str(n))) ==> Lookup(t, raw, now).None?
  {
    if ClaimedNonce(raw).Some? && ClaimedNonce(raw).value.Str? {
      assert ClaimedNonce(raw) == Some(Str(ClaimedNonce(raw).value.s));
    }
  }

  /** A key with an enabled identity: the note of its use, and the session for its owner. */
  ghost predicate LogsIn(before: Database, after: Database, key: Pubkey, host: string, now: int, session: Session) {
    exists id | id in before.rows ::
      && before.rows[id].pubkey == key && before.rows[id].enabled
      && after.rows == before.rows[id := before.rows[id].(lastUsed := Some(now))]
      && after == Apply(before, Touch(id, now)) && session == Session(before.rows[id].username, host)
  }

  /**
   What becomes of a login with the challenge it consumed. It goes through exactly when the challenge is
   for logins, the event answers it, its signer has an enabled identity, and minting works; when minting
   fails, the use of the identity has been noted all the same.
   */
  ghost predicate LoginOutcome(sig: Signatures, challenge: Option<Challenge>, raw: RawEvent, skew: int, now: int, minted: bool,
                               before: Database, after: Database, res: Result<Session>)
  {
    var key := Signer(sig, challenge, raw, AuthProtocol.LOGIN, skew);
    if key.Some? && HasEnabled(before.rows, key.value) then
      && (res.Ok? <==> minted)
      && exists session :: LogsIn(before, after, key.value, challenge.value.domain, now, session) && (minted ==> res == Ok(session))
    else
      res.Thrown? && after == before
  }

  /** `authenticate`: the checks in order, then the note of the use, then the session. */
  method Authenticate(sig: Signatures, store: Store, challenge: Option<Challenge>, raw: RawEvent, skew: int, now: int, minted: bool)
    returns (res: Result<Session>)
    requires Valid(store.State())
    modifies store
    ensures Valid(store.State())
    ensures LoginOutcome(sig, challenge, raw, skew, now, minted, old(store.State()), store.State(), res)
  {
    if challenge.None? || challenge.value.action != AuthProtocol.LOGIN {
      return Thrown;
    }
    var key := VerifyResponse(sig, raw, challenge.value, skew);
    if key.Thrown? {
      return Thrown;
    }
    var identity := store.GetByPubkey(key.value);
    if identity.None? {
      return Thrown;
    }
    ghost var before := store.State();
    store.TouchIdentity(identity.value.id, now);
    var session := Session(identity.value.username, challenge.value.domain);
    assert LogsIn(before, store.State(), key.value, challenge.value.domain, now, session);
    if !minted {
      return Thrown;
    }
    res := Ok(session);
  }

  /** The row of the nonce, if there was one, can never be looked up again. */
  ghost predicate UsedUp(t: Table, raw: RawEvent) {
    LookupNonce(raw).Some? ==> !Unconsumed(t, LookupNonce(raw).value)
  }

  /** `consume(nonce) if nonce else None` */
  method ConsumeClaimed(challenges: SqliteStore, raw: RawEvent, now: int) returns (challenge: Option<Challenge>)
    modifies challenges
    ensures challenge == Lookup(old(challenges.rows), raw, now)
    ensures UsedUp(challenges.rows, raw)
    ensures challenges.rows == if LookupNonce(raw).None? then old(challenges.rows)
                               else MarkRow(old(challenges.rows), LookupNonce(raw).value, now)
  {
    var nonce := LookupNonce(raw);
    if nonce.None? {
      return None;
    }
    challenge := challenges.Consume(nonce.value, now);
  }

  /**
   `authenticate_endpoint`: the challenge is used up before anything is checked, so whatever becomes of
   the first call, the same event cannot be used for a second one.
   */
  method AuthenticateEndpoint(sig: Signatures, challenges: SqliteStore, store: Store, allowed: bool, raw: RawEvent, skew: int,
                              now: int, touchNow: int, minted: bool)
    returns (res: Result<Session>)
    requires Valid(store.State())
    modifies challenges, store
    ensures Valid(store.State())
    ensures UsedUp(old(challenges.rows), raw) || !allowed ==> res.Thrown? && store.State() == old(store.State())
    ensures if allowed then UsedUp(challenges.rows, raw) else challenges.rows == old(challenges.rows)
    ensures LoginOutcome(sig, if allowed then Lookup(old(challenges.rows), raw, now) else None, raw, skew, touchNow, minted,
                         old(store.State()), store.State(), res)
  {
    if !allowed {
      return Thrown;
    }
    ghost var before := store.State();
    var challenge := ConsumeClaimed(challenges, raw, now);
    assert store.State() == before;
    res := Authenticate(sig, store, challenge, raw, skew, touchNow, minted);
  }

  /** `confirm_and_link` and `confirm_and_add`: session, challenge and signature, and only then the write. */
  method ConfirmAndLink(sig: Signatures, store: Store, challenge: Option<Challenge>, raw: RawEvent, skew: int,
                        portal: Option<Username>, replace: bool, details: Details, now: int)
    returns (res: Result<Username>)
    requires Valid(store.State())
    modifies store
    ensures Valid(store.State())
    ensures var key := Signer(sig, challenge, raw, AuthProtocol.LINK, skew);
            && (res.Ok? <==> portal.Some? && key.Some?
                             && (if replace then !OwnedByOther(old(store.rows), key.value, portal.value)
                                 else !Taken(old(store.rows), key.value)))
            && (res.Ok? ==>
                  && res.value == portal.value
                  && OwnedBy(store.rows, key.value, portal.value)
                  && store.State() == Apply(old(store.State()),
                                            if replace then Replace(portal.value, key.value, now, details)
                                            else Add(portal.value, key.value, now, details)))
            && (res.Thrown? ==> store.State() == old(store.State()))
  {
    if challenge.None? || challenge.value.action != AuthProtocol.LINK {
      return Thrown;
    }
    if portal.None? {
      return Thrown;
    }
    var key := VerifyResponse(sig, raw, challenge.value, skew);
    if key.Thrown? {
      return Thrown;
    }
    if replace {
      var linked := store.Link(portal.value, key.value, details, now);
      if linked.Thrown? {
        return Thrown;
      }
    } else {
      var added := store.AddIdentity(portal.value, key.value, details, now);
      if added.Thrown? {
        return Thrown;
      }
      assert store.rows[added.value.id] == added.value;
    }
    res := Ok(portal.value);
  }

  /** `link_endpoint`: without a cookie, or while linking is not allowed, nothing is consumed. */
  method LinkEndpoint(sig: Signatures, challenges: SqliteStore, store: Store, allowed: bool, cookie: bool, raw: RawEvent, skew: int,
                      portal: Option<Username>, replace: bool, details: Details, now: int, writeNow: int)
    returns (res: Result<Username>)
    requires Valid(store.State())
    modifies challenges, store
    ensures Valid(store.State())
    ensures UsedUp(old(challenges.rows), raw) || !allowed || !cookie ==> res.Thrown?
    ensures var key := Signer(sig, Lookup(old(challenges.rows), raw, now), raw, AuthProtocol.LINK, skew);
            res.Ok? <==> allowed && cookie && portal.Some? && key.Some?
                         && (if replace then !OwnedByOther(old(store.rows), key.value, portal.value)
                             else !Taken(old(store.rows), key.value))
    ensures if allowed && cookie then UsedUp(challenges.rows, raw) else challenges.rows == old(challenges.rows)
    ensures res.Thrown? ==> store.State() == old(store.State())
    ensures res.Ok? ==>
              && portal == Some(res.value) && Lookup(old(challenges.rows), raw, now).Some?
              && Lookup(old(challenges.rows), raw, now).value.action == AuthProtocol.LINK
              && exists key :: VerifyResponse(sig, raw, Lookup(old(challenges.rows), raw, now).value, skew) == Ok(key)
                               && OwnedBy(store.rows, key, res.value)
  {
    if !allowed || !cookie {
      return Thrown;
    }
    var challenge := ConsumeClaimed(challenges, raw, now);
    res := ConfirmAndLink(sig, store, challenge, raw, skew, portal, replace, details, writeNow);
  }

  /** `confirm_and_unlink`: the session alone suffices. */
  method ConfirmAndUnlink(store: Store, portal: Option<Username>) returns (res: Result<Username>)
    requires Valid(store.State())
    modifies store
    ensures Valid(store.State()) && (res.Ok? <==> portal.Some?)
    ensures res.Ok? ==> portal == Some(res.value) && store.State() == Apply(old(store.State()), Mappings.Unlink(res.value))
    ensures res.Thrown? ==> store.State() == old(store.State())
  {
    if portal.None? {
      return Thrown;
    }
    store.Unlink(portal.value);
    res := Ok(portal.value);
  }
}
