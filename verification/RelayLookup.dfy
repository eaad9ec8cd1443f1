/**
 The relay lists of linked users: a cache with a time to live, a live fetch when it has run out, and the
 stale list when the fetch fails (`RelayCache`, `_resolve_relays`). The clock, the outcome of a fetch and
 whether a key is linked are parameters.
 */
module RelayLookup {
  import opened Arithmetic
  import opened Outcomes

  type Pubkey = string

  datatype RelayEntry = RelayEntry(url: string, read: bool, write: bool)

  type Relays = seq<RelayEntry>

  datatype CachedList = CachedList(relays: Relays, fetchedAt: int)

  type Lists = map<Pubkey, CachedList>

  datatype Reply = Reply(linked: bool, relays: Relays, fetchedAt: Option<int>)

  const UNLINKED: Reply := Reply(false, [], None)

  function AgeSeconds(c: CachedList, now: int): nat {
    if now - c.fetchedAt > 0 then now - c.fetchedAt else 0
  }

  function LinkedReply(c: CachedList): Reply {
    Reply(true, c.relays, Some(c.fetchedAt))
  }

  predicate Current(lists: Lists, pubkey: Pubkey, now: int, ttl: int) {
    pubkey in lists && AgeSeconds(lists[pubkey], now) < ttl
  }

  /** One lookup: who is asked for, what a fetch would bring, and the clock at the check and at the store. */
  datatype Lookup = Lookup(pubkey: Pubkey, linked: bool, network: Option<Relays>, checkedAt: int, storedAt: int)

  predicate Stores(lists: Lists, ttl: int, l: Lookup) {
    l.linked && !Current(lists, l.pubkey, l.checkedAt, ttl) && l.network.Some?
  }

  function ListsAfter(lists: Lists, ttl: int, l: Lookup): Lists {
    if Stores(lists, ttl, l) then lists[l.pubkey := CachedList(l.network.value, l.storedAt)] else lists
  }

  /** What is known about a key by the end of a lookup is what the lookup answers. */
  function ReplyFrom(lists: Lists, l: Lookup): Reply {
    if !l.linked then UNLINKED
    else if l.pubkey in lists then LinkedReply(lists[l.pubkey])
    else Reply(true, [], None)
  }

  /** The reply for a key, linked or not, of which a list is known or not, member by member. */
  predicate Answers(reply: Reply, linked: bool, known: Option<CachedList>) {
    && reply.linked == linked
    && (if linked && known.Some? then reply.relays == known.value.relays && reply.fetchedAt == Some(known.value.fetchedAt)
        else reply.relays == [] && reply.fetchedAt.None?)
  }

  class RelayCache {
    var lists: Lists

    constructor ()
      ensures lists == map[]
    {
      lists := map[];
    }

    method Get(pubkey: Pubkey) returns (r: Option<CachedList>)
      ensures r == if pubkey in lists then Some(lists[pubkey]) else None
    {
      r := if pubkey in lists then Some(lists[pubkey]) else None;
    }

    /** `store`: inserts or overwrites. */
    method Store(pubkey: Pubkey, relays: Relays, now: int)
      modifies this
      ensures lists == old(lists)[pubkey := CachedList(relays, now)]
    {
      lists := lists[pubkey := CachedList(relays, now)];
    }

    /** `_resolve_relays`; `fetched` tells whether the network was asked. */
    method Resolve(l: Lookup, ttl: int) returns (reply: Reply, fetched: bool)
      modifies this
      ensures lists == ListsAfter(old(lists), ttl, l) && reply == ReplyFrom(lists, l)
      ensures fetched <==> l.linked && (l.pubkey !in old(lists) || l.checkedAt - old(lists)[l.pubkey].fetchedAt >= ttl || ttl <= 0)
      ensures lists == if fetched && l.network.Some? then old(lists)[l.pubkey := CachedList(l.network.value, l.storedAt)]
                       else old(lists)
      ensures Answers(reply, l.linked, if l.pubkey in lists then Some(lists[l.pubkey]) else None)
    {
      fetched := false;
      if !l.linked {
        return UNLINKED, fetched;
      }
      var cached := Get(l.pubkey);
      if cached.Some? && AgeSeconds(cached.value, l.checkedAt) < ttl {
        return LinkedReply(cached.value), fetched;
      }
      fetched := true;
      if l.network.None? {
        if cached.Some? {
          return LinkedReply(cached.value), fetched;
        }
        return Reply(true, [], None), fetched;
      }
      Store(l.pubkey, l.network.value, l.storedAt);
      var refreshed := Get(l.pubkey);
      reply := LinkedReply(refreshed.value);
    }
  }

  // ------------------------------------------------------------------ runs

  function ListsAfterAll(lists: Lists, ttl: int, ls: seq<Lookup>): Lists
    decreases |ls|
  {
    if ls == [] then lists else ListsAfterAll(ListsAfter(lists, ttl, ls[0]), ttl, ls[1..])
  }

  /** The times at which a run stores a list for a key. */
  function StoreTimes(lists: Lists, ttl: int, ls: seq<Lookup>, p: Pubkey): seq<int>
    decreases |ls|
  {
    if ls == [] then []
    else
      var rest := StoreTimes(ListsAfter(lists, ttl, ls[0]), ttl, ls[1..], p);
      if Stores(lists, ttl, ls[0]) && ls[0].pubkey == p then [ls[0].storedAt] + rest else rest
  }

  /** What the run's fetches brought for a key last, if any came through. */
  function LastFetched(lists: Lists, ttl: int, ls: seq<Lookup>, p: Pubkey): Option<CachedList>
    decreases |ls|
  {
    if ls == [] then None
    else
      var later := LastFetched(ListsAfter(lists, ttl, ls[0]), ttl, ls[1..], p);
      if later.Some? then later
      else if Stores(lists, ttl, ls[0]) && ls[0].pubkey == p then Some(CachedList(ls[0].network.value, ls[0].storedAt))
      else None
  }

  predicate ClockRunsOn(clock: int, ls: seq<Lookup>)
    decreases |ls|
  {
    ls == [] || (clock <= ls[0].checkedAt <= ls[0].storedAt && ClockRunsOn(ls[0].storedAt, ls[1..]))
  }

  ghost predicate NoneFromFuture(lists: Lists, clock: int) {
    forall p | p in lists :: lists[p].fetchedAt <= clock
  }

  /** Every time is at least `gap` after the one before it, and the first at least `gap` after `start`, if given. */
  ghost predicate SpacedFrom(start: Option<int>, times: seq<int>, gap: int) {
    && (start.Some? && times != [] ==> times[0] - start.value >= gap)
    && forall i | 0 <= i < |times| - 1 :: times[i + 1] - times[i] >= gap
  }

  /** While the clock does not run backwards, a key's list is stored at most once per time to live. */
  lemma {:induction false} StoresAreSpaced(lists: Lists, ttl: int, clock: int, ls: seq<Lookup>, p: Pubkey)
    requires ClockRunsOn(clock, ls) && NoneFromFuture(lists, clock)
    ensures SpacedFrom(if p in lists then Some(lists[p].fetchedAt) else None, StoreTimes(lists, ttl, ls, p), ttl)
    decreases |ls|
  {
    if ls != [] {
      var l, after := ls[0], ListsAfter(lists, ttl, ls[0]);
      StoresAreSpaced(after, ttl, l.storedAt, ls[1..], p);
    }
  }

  lemma {:induction false} SpacedSpan(times: seq<int>, gap: int)
    requires SpacedFrom(None, times, gap) && times != []
    ensures times[|times| - 1] - times[0] >= (|times| - 1) * gap
    decreases |times|
  {
    if |times| > 1 {
      var front := times[..|times| - 1];
      forall i | 0 <= i < |front| - 1 ensures front[i + 1] - front[i] >= gap {
        assert times[i + 1] - times[i] >= gap;
      }
      SpacedSpan(front, gap);
      assert times[|times| - 2 + 1] - times[|times| - 2] >= gap;
      MulDistributes(gap, |times| - 2, 1);
    }
  }

  /** So k stores of one key take at least k - 1 times the time to live. */
  lemma StoresTakeTime(ttl: int, clock: int, ls: seq<Lookup>, p: Pubkey)
    requires ClockRunsOn(clock, ls)
    ensures var times := StoreTimes(map[], ttl, ls, p);
            times != [] ==> times[|times| - 1] - times[0] >= (|times| - 1) * ttl
  {
    StoresAreSpaced(map[], ttl, clock, ls, p);
    if StoreTimes(map[], ttl, ls, p) != [] {
      SpacedSpan(StoreTimes(map[], ttl, ls, p), ttl);
    }
  }

  /** The table holds, for every key, what was fetched for it last. */
  lemma {:induction false} HoldsLastFetched(lists: Lists, ttl: int, ls: seq<Lookup>, p: Pubkey)
    ensures var after, last := ListsAfterAll(lists, ttl, ls), LastFetched(lists, ttl, ls, p);
            if last.Some? then p in after && after[p] == last.value
            else (p in after <==> p in lists) && (p in lists ==> after[p] == lists[p])
    decreases |ls|
  {
    if ls != [] {
      HoldsLastFetched(ListsAfter(lists, ttl, ls[0]), ttl, ls[1..], p);
    }
  }

  /**
   After any lookups from an empty cache, the next one answers a linked key with what was fetched for it
   last, counting its own fetch, or with nothing when no fetch ever came through. An unlinked key gets
   the same answer whatever was looked up before, and leaves the table as it is.
   */
  lemma AnswersLastFetch(ttl: int, ls: seq<Lookup>, l: Lookup)
    ensures var before := ListsAfterAll(map[], ttl, ls);
            var reply := ReplyFrom(ListsAfter(before, ttl, l), l);
            var last := if Stores(before, ttl, l) then Some(CachedList(l.network.value, l.storedAt))
                        else LastFetched(map[], ttl, ls, l.pubkey);
            && Answers(reply, l.linked, last)
            && (!l.linked ==> ListsAfter(before, ttl, l) == before)
  {
    HoldsLastFetched(map[], ttl, ls, l.pubkey);
  }
}
