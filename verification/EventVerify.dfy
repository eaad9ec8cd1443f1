/** Binding a signed event to a challenge (`nostr_verify`). Parsing and the signature check are oracles. */
module EventVerify {
  import opened ChallengeStore
  import opened Outcomes

  const CHALLENGE_EVENT_KIND: int := 22242

  /** A value of the request's JSON: a string, or anything else, of which only Python's truth counts. */
  datatype Json = Str(s: string) | Other(truthy: bool)

  /** The event as it came in; whatever is not a list is `None`. `rest` stands for its other members. */
  datatype RawEvent = RawEvent(tags: Option<seq<Option<seq<Json>>>>, rest: nat)

  datatype Event = Event(author: string, kind: int, createdAt: int, tags: seq<seq<string>>)

  datatype Signatures = Signatures(parse: RawEvent -> Option<Event>, verifies: Event -> bool)

  predicate Names(tag: seq<string>, name: string) {
    |tag| >= 2 && tag[0] == name
  }

  /** `_tag_value` */
  function TagValue(tags: seq<seq<string>>, name: string): Option<string> {
    if tags == [] then None
    else if Names(tags[0], name) then Some(tags[0][1])
    else TagValue(tags[1..], name)
  }

  /** `extract_tag_from_raw_event` */
  function RawTagValue(tags: seq<Option<seq<Json>>>, name: string): Option<Json> {
    if tags == [] then None
    else if tags[0].Some? && |tags[0].value| >= 2 && tags[0].value[0] == Str(name) then Some(tags[0].value[1])
    else RawTagValue(tags[1..], name)
  }

  predicate RawNames(tag: Option<seq<Json>>, name: string) {
    tag.Some? && |tag.value| >= 2 && tag.value[0] == Str(name)
  }

  /** Likewise for the event as it came in: the first list of two or more that begins with the name counts. */
  lemma {:induction false} FirstRawTagCounts(tags: seq<Option<seq<Json>>>, name: string)
    ensures RawTagValue(tags, name).None? <==> forall i | 0 <= i < |tags| :: !RawNames(tags[i], name)
    ensures RawTagValue(tags, name).Some? ==>
              exists i :: 0 <= i < |tags| && RawNames(tags[i], name) && tags[i].value[1] == RawTagValue(tags, name).value
                          && forall j | 0 <= j < i :: !RawNames(tags[j], name)
    decreases |tags|
  {
    if tags != [] && !RawNames(tags[0], name) {
      FirstRawTagCounts(tags[1..], name);
      if RawTagValue(tags, name).Some? {
        var i :| 0 <= i < |tags[1..]| && RawNames(tags[1..][i], name) && tags[1..][i].value[1] == RawTagValue(tags, name).value
                 && forall j | 0 <= j < i :: !RawNames(tags[1..][j], name);
        assert RawNames(tags[i + 1], name) && tags[i + 1].value[1] == RawTagValue(tags, name).value;
        forall j | 0 <= j < i + 1 ensures !RawNames(tags[j], name) {
          assert j > 0 ==> !RawNames(tags[1..][j - 1], name);
        }
      }
    }
  }

  function ClaimedNonce(raw: RawEvent): Option<Json> {
    if raw.tags.None? then None else RawTagValue(raw.tags.value, "challenge")
  }

  /** The value is that of the first tag with the name, and there is one exactly when such a tag exists. */
  lemma {:induction false} FirstTagCounts(tags: seq<seq<string>>, name: string)
    ensures TagValue(tags, name).None? <==> forall i | 0 <= i < |tags| :: !Names(tags[i], name)
    ensures TagValue(tags, name).Some? ==>
              exists i :: 0 <= i < |tags| && Names(tags[i], name) && tags[i][1] == TagValue(tags, name).value
                          && forall j | 0 <= j < i :: !Names(tags[j], name)
    decreases |tags|
  {
    if tags != [] && !Names(tags[0], name) {
      FirstTagCounts(tags[1..], name);
      if TagValue(tags, name).Some? {
        var i :| 0 <= i < |tags[1..]| && Names(tags[1..][i], name) && tags[1..][i][1] == TagValue(tags, name).value
                 && forall j | 0 <= j < i :: !Names(tags[1..][j], name);
        assert Names(tags[i + 1], name) && tags[i + 1][1] == TagValue(tags, name).value;
        forall j | 0 <= j < i + 1 ensures !Names(tags[j], name) {
          assert j > 0 ==> !Names(tags[1..][j - 1], name);
        }
      }
    }
  }

  /** `verify_challenge_response`: the signer's key. */
  function VerifyResponse(sig: Signatures, raw: RawEvent, c: Challenge, skew: int): Result<string> {
    var parsed := sig.parse(raw);
    if parsed.None? then Thrown
    else
      var e := parsed.value;
      if !sig.verifies(e) then Thrown
      else if e.kind != CHALLENGE_EVENT_KIND then Thrown
      else if TagValue(e.tags, "challenge") != Some(c.nonce) then Thrown
      else if TagValue(e.tags, "domain") != Some(c.domain) then Thrown
      else if TagValue(e.tags, "action") != Some(c.action) then Thrown
      else if !(c.issuedAt - skew <= e.createdAt <= c.expiresAt + skew) then Thrown
      else Ok(e.author)
  }

  /** `e` is a signed event of `pubkey` that names the challenge, its domain and its action, and is in time. */
  ghost predicate Attests(sig: Signatures, e: Event, c: Challenge, skew: int, pubkey: string) {
    && sig.verifies(e) && e.author == pubkey && e.kind == 22242
    && TagValue(e.tags, "challenge") == Some(c.nonce)
    && TagValue(e.tags, "domain") == Some(c.domain)
    && TagValue(e.tags, "action") == Some(c.action)
    && c.issuedAt - skew <= e.createdAt <= c.expiresAt + skew
  }

  /** The response is accepted, with the signer's key, exactly when it parses as an event that attests. */
  lemma AcceptedIffAttested(sig: Signatures, raw: RawEvent, c: Challenge, skew: int, pubkey: string)
    ensures VerifyResponse(sig, raw, c, skew) == Ok(pubkey) <==>
              sig.parse(raw).Some? && Attests(sig, sig.parse(raw).value, c, skew, pubkey)
  {
  }

  /** An event accepted for two challenges binds one nonce, one domain and one action. */
  lemma BindsOneChallenge(sig: Signatures, raw: RawEvent, c: Challenge, d: Challenge, skew: int)
    requires VerifyResponse(sig, raw, c, skew).Ok? && VerifyResponse(sig, raw, d, skew).Ok?
    ensures c.nonce == d.nonce && c.domain == d.domain && c.action == d.action
    ensures VerifyResponse(sig, raw, c, skew) == VerifyResponse(sig, raw, d, skew)
  {
  }
}
