/** The priority queue of the shortest-path search: a list that is sorted again after every push. */
module PriorityQueue {

  datatype Entry = Entry(value: string, cost: real)

  ghost predicate Sorted(q: seq<Entry>) {
    forall i, j :: 0 <= i < j < |q| ==> q[i].cost <= q[j].cost
  }

  /** Places an entry behind every entry that costs no more. */
  function Insert(q: seq<Entry>, e: Entry): seq<Entry> {
    if q == [] then [e]
    else if q[|q| - 1].cost <= e.cost then q + [e]
    else Insert(q[..|q| - 1], e) + [q[|q| - 1]]
  }

  /** In a sorted queue that place is behind all that cost no more, and in front of all that cost more. */
  lemma {:induction false} InsertPlaces(q: seq<Entry>, e: Entry) returns (k: nat)
    requires Sorted(q)
    ensures k <= |q| && Insert(q, e) == q[..k] + [e] + q[k..]
    ensures (forall i | 0 <= i < k :: q[i].cost <= e.cost) && (forall i | k <= i < |q| :: e.cost < q[i].cost)
    decreases |q|
  {
    k := |q|;
    if q != [] && q[|q| - 1].cost > e.cost {
      var front, last := q[..|q| - 1], q[|q| - 1];
      k := InsertPlaces(front, e);
      assert Insert(q, e) == Insert(front, e) + [last];
      hide Insert, Sorted;
      Spliced(front, last, e, k);
      assert q == front + [last];
    }
  }

  lemma Spliced(front: seq<Entry>, last: Entry, e: Entry, k: nat)
    requires k <= |front|
    ensures (front[..k] + [e] + front[k..]) + [last] == (front + [last])[..k] + [e] + (front + [last])[k..]
  {
  }

  /** The stable sort by cost: entries of equal cost keep their order. */
  function StableSort(q: seq<Entry>): seq<Entry> {
    if q == [] then [] else Insert(StableSort(q[..|q| - 1]), q[|q| - 1])
  }

  lemma {:induction false} InsertKeepsEntries(q: seq<Entry>, e: Entry)
    ensures multiset(Insert(q, e)) == multiset(q) + multiset{e}
  {
    if q != [] {
      assert q == q[..|q| - 1] + [q[|q| - 1]];
      InsertKeepsEntries(q[..|q| - 1], e);
    }
  }

  lemma {:induction false} InsertSorts(q: seq<Entry>, e: Entry)
    requires Sorted(q)
    ensures Sorted(Insert(q, e))
  {
    if q != [] && q[|q| - 1].cost > e.cost {
      var rest := q[..|q| - 1];
      InsertSorts(rest, e);
      InsertKeepsEntries(rest, e);
      forall x | x in Insert(rest, e) ensures x.cost <= q[|q| - 1].cost {
        assert x in multiset(rest) + multiset{e};
      }
    }
  }

  lemma {:induction false} SortSorts(q: seq<Entry>)
    ensures Sorted(StableSort(q))
    ensures multiset(StableSort(q)) == multiset(q)
  {
    if q != [] {
      var rest := q[..|q| - 1];
      assert q == rest + [q[|q| - 1]];
      SortSorts(rest);
      InsertSorts(StableSort(rest), q[|q| - 1]);
      InsertKeepsEntries(StableSort(rest), q[|q| - 1]);
    }
  }

  /** A sorted queue is left as it is, so sorting again after a push only moves the new entry. */
  lemma {:induction false} SortOfSorted(q: seq<Entry>)
    requires Sorted(q)
    ensures StableSort(q) == q
  {
    if q != [] {
      SortOfSorted(q[..|q| - 1]);
    }
  }

  lemma PushInserts(q: seq<Entry>, e: Entry)
    requires Sorted(q)
    ensures StableSort(q + [e]) == Insert(q, e)
  {
    SortOfSorted(q);
    assert (q + [e])[..|q|] == q;
  }

  class Queue {
    var queue: seq<Entry>

    ghost predicate Valid()
      reads this
    {
      Sorted(queue)
    }

    constructor ()
      ensures Valid() && queue == []
    {
      queue := [];
    }

    predicate Empty()
      reads this
    {
      |queue| == 0
    }

    /** `push`: appends, then sorts the whole list again. */
    method Push(value: string, cost: real)
      requires Valid()
      modifies this
      ensures Valid() && queue == Insert(old(queue), Entry(value, cost))
      ensures multiset(queue) == multiset(old(queue)) + multiset{Entry(value, cost)}
    {
      PushInserts(queue, Entry(value, cost));
      InsertSorts(queue, Entry(value, cost));
      InsertKeepsEntries(queue, Entry(value, cost));
      queue := queue + [Entry(value, cost)];
      queue := StableSort(queue);
    }

    /** `pop`: the head of the list, which is an entry of least cost. */
    method Pop() returns (e: Entry)
      requires Valid() && !Empty()
      modifies this
      ensures Valid() && old(queue) == [e] + queue
      ensures forall x | x in queue :: e.cost <= x.cost
    {
      e := queue[0];
      queue := queue[1..];
    }
  }
}
