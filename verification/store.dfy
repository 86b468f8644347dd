/**
  The per-author event index of src/store.ts: `userAndEvents` maps each
  author's pubkey to that author's events, ordered by creation time, and the
  latest creation time seen for the author.
 */
module EventStore {
  import opened Wrappers
  import opened Sorting
  import opened OrderedMap

  /** The three fields of a Nostr event that the index reads. */
  datatype Event = Event(id: string, pubkey: string, createdAt: int)

  /** One author's record (`UserEvents` in the source). */
  datatype UserEvents = UserEvents(events: seq<Event>, latestCreatedAt: int)

  /** `userAndEvents`: pubkey to record, in first-seen order. */
  type UserMap = OrderedMap<string, UserEvents>

  /** Sort key of the per-author event order: ascending by creation time. */
  function TimeOf(e: Event): int {
    e.createdAt
  }

  function IdOf(e: Event): string {
    e.id
  }

  /** Sort key of the author listing: descending by latest creation time, most recent first. */
  function Recency(entry: (string, UserEvents)): int {
    -entry.1.latestCreatedAt
  }

  ghost predicate HasEventWithId(events: seq<Event>, id: string) {
    exists i :: 0 <= i < |events| && events[i].id == id
  }

  /** The source's `find` by id: the first event carrying `id`, if any. */
  function FindById(events: seq<Event>, id: string): (r: Option<Event>)
    ensures r.Some? <==> HasEventWithId(events, id)
    ensures r.Some? ==>
      exists i :: 0 <= i < |events| && events[i] == r.value && r.value.id == id &&
        forall j :: 0 <= j < i ==> events[j].id != id
  {
    if |events| == 0 then None
    else if events[0].id == id then Some(events[0])
    else
      var r := FindById(events[1..], id);
      assert events == [events[0]] + events[1..];
      r
  }

  /** `t` is the largest creation time among `events`. */
  ghost predicate IsLatest(events: seq<Event>, t: int) {
    && (forall i :: 0 <= i < |events| ==> events[i].createdAt <= t)
    && (exists i :: 0 <= i < |events| && events[i].createdAt == t)
  }

  /**
    `addUserEvent`: merges one event into the index. A repeated id in the
    author's list changes nothing; otherwise the event is appended, the list is
    re-sorted by creation time, and the latest time is raised if the event is
    newer. An unseen author gets a one-event record, appended last.
   */
  function AddUserEvent(users: UserMap, e: Event): (r: UserMap)
    ensures Get(r, e.pubkey).Some?
    ensures HasEventWithId(Get(r, e.pubkey).value.events, e.id)
    ensures forall k :: k != e.pubkey ==> Get(r, k) == Get(users, k)
    ensures Get(users, e.pubkey).None? ==>
      Get(r, e.pubkey) == Some(UserEvents([e], e.createdAt))
    ensures Get(users, e.pubkey).Some? ==>
      Get(r, e.pubkey).value.latestCreatedAt >= Get(users, e.pubkey).value.latestCreatedAt
    ensures Get(users, e.pubkey).Some? && HasEventWithId(Get(users, e.pubkey).value.events, e.id) ==>
      r == users
    ensures Get(users, e.pubkey).Some? && !HasEventWithId(Get(users, e.pubkey).value.events, e.id) ==>
      var before, after := Get(users, e.pubkey).value, Get(r, e.pubkey).value;
      && multiset(after.events) == multiset(before.events) + multiset{e}
      && SortedBy(after.events, TimeOf)
      && after.latestCreatedAt >= e.createdAt
      && (after.latestCreatedAt == before.latestCreatedAt || after.latestCreatedAt == e.createdAt)
  {
    match Get(users, e.pubkey)
    case Some(record) =>
      if FindById(record.events, e.id).Some? then users
      else
        var events := SortBy(record.events + [e], TimeOf);
        SortBySorted(record.events + [e], TimeOf);
        var latest := if record.latestCreatedAt < e.createdAt then e.createdAt else record.latestCreatedAt;
        assert e in multiset(events);
        Set(users, e.pubkey, UserEvents(events, latest))
    case None =>
      assert [e][0].id == e.id;
      Set(users, e.pubkey, UserEvents([e], e.createdAt))
  }

  /**
    `getSortedUserEvents`: every (pubkey, record) entry, most recent author
    first. The store itself is a value and is left as it is.
   */
  function GetSortedUserEvents(users: UserMap): (r: seq<(string, UserEvents)>)
    ensures multiset(r) == multiset(users)
    ensures forall i, j :: 0 <= i < j < |r| ==> r[i].1.latestCreatedAt >= r[j].1.latestCreatedAt
  {
    SortBySorted(users, Recency);
    SortBy(users, Recency)
  }
  /**
    What every record of the index satisfies: it is non-empty, holds only
    events by its own author, sorted by creation time and unique by id, and
    its latest time is the largest creation time among them.
   */
  ghost predicate WellFormed(pubkey: string, record: UserEvents) {
    && |record.events| > 0
    && (forall i :: 0 <= i < |record.events| ==> record.events[i].pubkey == pubkey)
    && SortedBy(record.events, TimeOf)
    && DistinctBy(record.events, IdOf)
    && IsLatest(record.events, record.latestCreatedAt)
  }

  /** The index invariant: unique pubkeys, every record well formed. */
  ghost predicate Valid(users: UserMap) {
    && DistinctKeys(users)
    && forall k :: Get(users, k).Some? ==> WellFormed(k, Get(users, k).value)
  }

  /** The index starts out as an empty `Map`, which satisfies the invariant. */
  lemma EmptyIsValid()
    ensures Valid([])
  {
  }

  /** Merging a fresh event into a well-formed record keeps it well formed. */
  lemma MergeKeepsWellFormed(before: UserEvents, e: Event, after: UserEvents)
    requires WellFormed(e.pubkey, before)
    requires !HasEventWithId(before.events, e.id)
    requires after.events == SortBy(before.events + [e], TimeOf)
    requires after.latestCreatedAt >= before.latestCreatedAt && after.latestCreatedAt >= e.createdAt
    requires after.latestCreatedAt == before.latestCreatedAt || after.latestCreatedAt == e.createdAt
    ensures WellFormed(e.pubkey, after)
  {
    var joined := before.events + [e];
    assert multiset(joined) == multiset(after.events);
    assert |after.events| > 0 by {
      assert e in multiset(after.events);
    }
    forall i | 0 <= i < |after.events|
      ensures after.events[i].pubkey == e.pubkey
      ensures after.events[i].createdAt <= after.latestCreatedAt
    {
      assert after.events[i] in multiset(joined);
    }
    assert DistinctBy(joined, IdOf);
    SortByKeepsDistinct(joined, TimeOf, IdOf);
    SortBySorted(joined, TimeOf);
    var w: Event;
    if after.latestCreatedAt == e.createdAt {
      w := e;
    } else {
      var i :| 0 <= i < |before.events| && before.events[i].createdAt == before.latestCreatedAt;
      w := before.events[i];
    }
    assert w in multiset(after.events);
  }

  /** Storing a well-formed record under its author keeps the invariant. */
  lemma SetKeepsValid(users: UserMap, pubkey: string, record: UserEvents)
    requires Valid(users)
    requires WellFormed(pubkey, record)
    ensures Valid(Set(users, pubkey, record))
  {
    var r := Set(users, pubkey, record);
    SetKeepsDistinct(users, pubkey, record);
    forall k | Get(r, k).Some?
      ensures WellFormed(k, Get(r, k).value)
    {
      if k != pubkey {
        assert Get(r, k) == Get(users, k);
      }
    }
  }

  /** Every add keeps the index invariant. */
  lemma AddUserEventKeepsValid(users: UserMap, e: Event)
    requires Valid(users)
    ensures Valid(AddUserEvent(users, e))
  {
    match Get(users, e.pubkey)
    case None =>
      assert WellFormed(e.pubkey, UserEvents([e], e.createdAt)) by {
        assert [e][0].createdAt == e.createdAt;
      }
      SetKeepsValid(users, e.pubkey, UserEvents([e], e.createdAt));
    case Some(before) =>
      if FindById(before.events, e.id).None? {
        var latest := if before.latestCreatedAt < e.createdAt then e.createdAt else before.latestCreatedAt;
        var after := UserEvents(SortBy(before.events + [e], TimeOf), latest);
        MergeKeepsWellFormed(before, e, after);
        SetKeepsValid(users, e.pubkey, after);
      }
  }

  /**
    On a valid index, the source's append-then-re-sort puts the new event
    right after every event that is not newer than it, and leaves the others
    in place.
   */
  lemma AddUserEventInsertsInPlace(users: UserMap, e: Event)
    requires Valid(users)
    requires Get(users, e.pubkey).Some?
    requires !HasEventWithId(Get(users, e.pubkey).value.events, e.id)
    ensures Get(AddUserEvent(users, e), e.pubkey).value.events ==
            InsertBy(Get(users, e.pubkey).value.events, e, TimeOf)
  {
    var before := Get(users, e.pubkey).value;
    assert FindById(before.events, e.id).None?;
    SortByAppendIsInsert(before.events, e, TimeOf);
  }

  /**
    A new author's entry is appended after all others; an existing author
    keeps its position, so the first-seen order of pubkeys is preserved.
   */
  lemma AddUserEventKeepsKeyOrder(users: UserMap, e: Event)
    ensures Get(users, e.pubkey).None? ==>
      AddUserEvent(users, e) == users + [(e.pubkey, UserEvents([e], e.createdAt))]
    ensures Get(users, e.pubkey).Some? ==>
      var r := AddUserEvent(users, e);
      |r| == |users| && forall i :: 0 <= i < |users| ==> r[i].0 == users[i].0
  {
    match Get(users, e.pubkey)
    case None =>
      SetPlacement(users, e.pubkey, UserEvents([e], e.createdAt));
    case Some(before) =>
      if FindById(before.events, e.id).None? {
        var latest := if before.latestCreatedAt < e.createdAt then e.createdAt else before.latestCreatedAt;
        SetPlacement(users, e.pubkey, UserEvents(SortBy(before.events + [e], TimeOf), latest));
      }
  }

  /** Adding the same event a second time changes nothing. */
  lemma AddUserEventIdempotent(users: UserMap, e: Event)
    ensures AddUserEvent(AddUserEvent(users, e), e) == AddUserEvent(users, e)
  {
  }

  /** The events delivered by the relay pool, merged one after another. */
  function AddAll(users: UserMap, events: seq<Event>): (r: UserMap)
    ensures forall k :: (forall i :: 0 <= i < |events| ==> events[i].pubkey != k) ==> Get(r, k) == Get(users, k)
    decreases |events|
  {
    if |events| == 0 then users
    else AddAll(AddUserEvent(users, events[0]), events[1..])
  }

  /** The invariant holds after any sequence of adds to a valid index. */
  lemma {:induction false} AddAllKeepsValid(users: UserMap, events: seq<Event>)
    requires Valid(users)
    ensures Valid(AddAll(users, events))
    decreases |events|
  {
    if |events| > 0 {
      AddUserEventKeepsValid(users, events[0]);
      AddAllKeepsValid(AddUserEvent(users, events[0]), events[1..]);
    }
  }

  /**
    Over any sequence of adds no author disappears, every author's latest
    time never decreases, and every delivered event's id is in its author's
    record.
   */
  lemma {:induction false} AddAllMonotone(users: UserMap, events: seq<Event>, k: string)
    requires Get(users, k).Some?
    ensures Get(AddAll(users, events), k).Some?
    ensures Get(AddAll(users, events), k).value.latestCreatedAt >= Get(users, k).value.latestCreatedAt
    decreases |events|
  {
    if |events| > 0 {
      AddAllMonotone(AddUserEvent(users, events[0]), events[1..], k);
    }
  }

  /** Every delivered event's id ends up in its author's record. */
  lemma {:induction false} AddAllRetains(users: UserMap, events: seq<Event>, n: int)
    requires 0 <= n < |events|
    ensures Get(AddAll(users, events), events[n].pubkey).Some?
    ensures HasEventWithId(Get(AddAll(users, events), events[n].pubkey).value.events, events[n].id)
    decreases |events|
  {
    var next := AddUserEvent(users, events[0]);
    assert AddAll(users, events) == AddAll(next, events[1..]);
    if n == 0 {
      RetainedById(next, events[1..], events[0]);
    } else {
      assert events[1..][n - 1] == events[n];
      AddAllRetains(next, events[1..], n - 1);
    }
  }

  /** Once an author's record holds an id, later adds keep it there. */
  lemma {:induction false} RetainedById(users: UserMap, events: seq<Event>, e: Event)
    requires Get(users, e.pubkey).Some?
    requires HasEventWithId(Get(users, e.pubkey).value.events, e.id)
    ensures Get(AddAll(users, events), e.pubkey).Some?
    ensures HasEventWithId(Get(AddAll(users, events), e.pubkey).value.events, e.id)
    decreases |events|
  {
    if |events| > 0 {
      var next := AddUserEvent(users, events[0]);
      if events[0].pubkey == e.pubkey && next != users {
        var before, after := Get(users, e.pubkey).value, Get(next, e.pubkey).value;
        var i :| 0 <= i < |before.events| && before.events[i].id == e.id;
        assert before.events[i] in multiset(after.events);
      }
      RetainedById(next, events[1..], e);
    }
  }

  /**
    The sorted listing holds exactly the index's entries: the same record
    under every pubkey, each pubkey once.
   */
  lemma SortedUserEventsSameEntries(users: UserMap)
    requires DistinctKeys(users)
    ensures DistinctKeys(GetSortedUserEvents(users))
    ensures forall k :: Get(GetSortedUserEvents(users), k) == Get(users, k)
  {
    var r := GetSortedUserEvents(users);
    SortByKeepsDistinct(users, Recency, KeyOf);
    forall k
      ensures Get(r, k) == Get(users, k)
    {
      PermutedGet(users, r, k);
    }
  }

  /** The same event delivered twice leaves one copy in its author's record. */
  lemma DuplicateDeliveryExample()
    ensures var e1 := Event("e1", "p1", 100);
      AddUserEvent(AddUserEvent([], e1), e1) == [("p1", UserEvents([e1], 100))]
  {
    var e1 := Event("e1", "p1", 100);
    assert [e1][0].id == "e1";
  }

  /** An older event delivered later is placed before the newer one. */
  lemma OutOfOrderDeliveryExample()
    ensures var e1, e2 := Event("e1", "p1", 100), Event("e2", "p1", 50);
      AddUserEvent(AddUserEvent([], e1), e2) == [("p1", UserEvents([e2, e1], 100))]
  {
    var e1, e2 := Event("e1", "p1", 100), Event("e2", "p1", 50);
    var first := AddUserEvent([], e1);
    assert first == [("p1", UserEvents([e1], 100))] by {
      assert [e1][0].id == "e1";
    }
    assert FindById([e1], "e2").None?;
    assert [e1] + [e2] == [e1, e2];
    assert [e1, e2][..1] == [e1];
    assert SortBy([e1], TimeOf) == [e1] by {
      assert [e1][..0] == [];
    }
    assert InsertBy([e1], e2, TimeOf) == [e2, e1];
    assert SortBy([e1, e2], TimeOf) == [e2, e1];
  }

  /** An author whose latest event is newer is listed first. */
  lemma ListingOrderExample()
    ensures var a, b := Event("a", "p1", 100), Event("b", "p2", 200);
      GetSortedUserEvents(AddUserEvent(AddUserEvent([], a), b))[0].0 == "p2"
  {
    var a, b := Event("a", "p1", 100), Event("b", "p2", 200);
    var users := AddUserEvent(AddUserEvent([], a), b);
    AddUserEventKeepsKeyOrder([], a);
    AddUserEventKeepsKeyOrder([("p1", UserEvents([a], 100))], b);
    assert users == [("p1", UserEvents([a], 100)), ("p2", UserEvents([b], 200))];
    assert users[..1] == [users[0]];
  }
}
