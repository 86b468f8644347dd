# Nostr display board: event index and relay-address rewrite

A Dafny model of the two pieces of logic in this Nostr client. Both are pure and sequential.

- **The per-author event index** (`src/store.ts`). `addUserEvent` merges one received event into
  `userAndEvents`, a map from an author's pubkey to that author's events plus the latest
  `created_at` seen for them. `getSortedUserEvents` lists the map's entries, most recently
  active author first.
- **The relay-address rewrite** (`src/relays.ts`, `normalizeUrls`). Every relay address gets a
  WebSocket scheme and is then canonicalised by `utils.normalizeURL` of the nostr-tools library.

Modules:

- `Wrappers` (`wrappers.dfy`): the `Option` datatype.
- `Sorting` (`sorting.dfy`): sortedness and distinctness predicates, plus a stable insertion sort
  `SortBy(s, key)`. This models `Array.prototype.sort` with a comparator `(a, b) => key(a) - key(b)`.
  JavaScript's sort is stable, and so is `SortBy`.
- `OrderedMap` (`ordered_map.dfy`): a JavaScript `Map`, kept as its entries in insertion order,
  with `get` and `set`. The insertion order matters because `Array.from(map)` lists entries in
  that order. That order then decides how `getSortedUserEvents` places authors with equal times.
- `EventStore` (`store.dfy`): `Event`, `UserEvents`, `AddUserEvent`, `GetSortedUserEvents`, the
  index invariant and its preservation, and the behaviour over a whole delivery history.
- `Relays` (`relays.dfy`): `String.prototype.replace` with a string pattern and a `$`-free replacement, the scheme step, and
  `NormalizeUrls`. nostr-tools' `utils.normalizeURL` is a function parameter `canonicalize`.

The index invariant (`EventStore.Valid`) says:

- pubkeys are unique;
- every record is non-empty and holds only events by its own author;
- each record's events are sorted by `created_at` and unique by `id`;
- `latestCreatedAt` is the largest `created_at` in the record.

The empty map satisfies it, and every `addUserEvent` preserves it.

## Model

| member | source | states |
|---|---|---|
| `EventStore.FindById` | src/store.ts:16 | `find` by id: the result is present exactly when some event carries the id, and it is the first such event |
| `EventStore.AddUserEvent` | src/store.ts:12-30 | Only the event's author's entry can change. Afterwards that author exists and their record holds the event's id. An unseen author gets the record `[event]` with `latestCreatedAt = created_at`. A repeated id leaves the whole map unchanged. Otherwise the events are the old events plus the new one as a multiset, sorted by `created_at`, and `latestCreatedAt` becomes the max of the old value and the new time, so it never decreases |
| `EventStore.GetSortedUserEvents` | src/store.ts:32-36 | The result is a permutation of the map's entries, in non-increasing order of `latestCreatedAt` |
| `EventStore.SortedUserEventsSameEntries` | src/store.ts:32-36 | On a map with unique keys, the listing has unique pubkeys and gives the same record under every pubkey as the map does |
| `EventStore.EmptyIsValid` | src/store.ts:10 | The initial empty map satisfies the index invariant |
| `EventStore.MergeKeepsWellFormed` | src/store.ts:19-23 | Appending an event with a new id, re-sorting, and raising the latest time keeps a record well formed: author, order, id uniqueness, and latest time equal to the maximum |
| `EventStore.AddUserEventKeepsValid` | src/store.ts:12-30 | Every add preserves the index invariant |
| `EventStore.AddUserEventInsertsInPlace` | src/store.ts:19-20 | On a valid index, push followed by a full re-sort equals inserting the new event after every event that is not newer |
| `EventStore.AddUserEventKeepsKeyOrder` | src/store.ts:14-28 | A new author is appended after all existing entries; for an existing author, every pubkey keeps its position |
| `EventStore.AddUserEventIdempotent` | src/store.ts:15-18 | Delivering the same event a second time changes nothing |
| `EventStore.AddAll` | src/store.ts:12-30 | Over a sequence of deliveries, authors who sent none of the events keep their entries exactly |
| `EventStore.AddAllKeepsValid` | src/store.ts:12-30 | The invariant holds after any sequence of deliveries into a valid index |
| `EventStore.AddAllMonotone` | src/store.ts:21-23 | Over any sequence of deliveries, no author disappears and no `latestCreatedAt` decreases |
| `EventStore.AddAllRetains` | src/store.ts:15-28 | After a sequence of deliveries, every delivered event's id is in its author's record |
| `EventStore.RetainedById` | src/store.ts:15-20 | An id already in an author's record stays there through later deliveries |
| `EventStore.DuplicateDeliveryExample` | src/store.ts:15-18 | Delivering `e1` twice leaves one copy |
| `EventStore.OutOfOrderDeliveryExample` | src/store.ts:19-23 | Delivering `e2(50)` after `e1(100)` gives `[e2, e1]` with latest time 100 |
| `EventStore.ListingOrderExample` | src/store.ts:32-34 | Of two authors with latest times 100 and 200, the 200 one is listed first |
| `Sorting.InsertBy` | src/store.ts:20 | Insertion adds exactly the one element, as a multiset |
| `Sorting.InsertBySorted` | src/store.ts:20 | Inserting into a sorted sequence gives a sorted sequence |
| `Sorting.SortBy` | src/store.ts:20 | The sort result is a permutation of its input |
| `Sorting.SortBySorted` | src/store.ts:20 | The sort result is ordered non-decreasingly by the key |
| `Sorting.InsertByLast` | src/store.ts:20 | An element whose key is at least every key in the list is placed last |
| `Sorting.SortBySortedIsIdentity` | src/store.ts:20 | Sorting an already sorted sequence returns it unchanged |
| `Sorting.SortByAppendIsInsert` | src/store.ts:19-20 | Appending to a sorted sequence and re-sorting equals inserting in place |
| `Sorting.InsertByKeepsDistinct` | src/store.ts:19-20 | Inserting an element with a fresh identity keeps identities unique |
| `Sorting.SortByKeepsDistinct` | src/store.ts:20 | Sorting keeps identities unique |
| `OrderedMap.Get` | src/store.ts:14 | `map.get`: absent exactly when no entry has the key; when present, it is the value of an entry under that key |
| `OrderedMap.Set` | src/store.ts:25 | `map.set`: afterwards the key maps to the new value, and every other key maps to what it did before |
| `OrderedMap.SetPlacement` | src/store.ts:25 | A new key is appended last; for an existing key, every key keeps its position |
| `OrderedMap.GetEntry` | src/store.ts:14 | With unique keys, `get` of an entry's key returns that entry's value |
| `OrderedMap.SetKeepsDistinct` | src/store.ts:25 | `set` keeps keys unique |
| `OrderedMap.PermutedGet` | src/store.ts:33-34 | Two maps with unique keys and the same entries in any order agree on every `get` |
| `Relays.ReplaceFirst` | src/relays.ts:50-51 | `replace` with a pattern that does not occur returns the string unchanged |
| `Relays.ReplaceFirstOccurrence` | src/relays.ts:50-51 | `replace` with a `$`-free replacement substitutes exactly the first occurrence of the pattern |
| `Relays.WithWsScheme` | src/relays.ts:48-52 | After the scheme step, every address starts with `ws://` or `wss://` |
| `Relays.SchemesDisjoint` | src/relays.ts:50-52 | No address starts with both `http://` and `https://`, or with both `ws://` and `wss://`. An address with a WebSocket scheme starts with neither HTTP scheme. So the `https://` branch is never shadowed |
| `Relays.HttpBecomesWs` | src/relays.ts:50 | `http://` + rest becomes `ws://` + rest |
| `Relays.HttpsBecomesWss` | src/relays.ts:51 | `https://` + rest becomes `wss://` + rest |
| `Relays.WsSchemeUnchanged` | src/relays.ts:52 | An address that already starts with `ws://` or `wss://` passes the scheme step unchanged |
| `Relays.WithWsSchemeKeepsAddress` | src/relays.ts:50-52 | The scheme step keeps the address after its scheme. It yields `ws://` for a plain-text scheme and `wss://` otherwise, with `wss://` prepended when there is no known scheme |
| `Relays.WithWsSchemeIdempotent` | src/relays.ts:50-52 | Applying the scheme step twice equals applying it once |
| `Relays.NormalizeUrls` | src/relays.ts:46-56 | The output has the input's length, and element i is the canonicalised scheme step of input element i alone |
| `Relays.NormalizeUrlsAppend` | src/relays.ts:47-55 | Normalising a concatenation equals concatenating the normalised parts |
| `Relays.NormalizeUrlsIdempotent` | src/relays.ts:47-55 | If canonicalisation keeps a WebSocket scheme and is idempotent on such addresses, then normalising a normalised list changes nothing |

## Left out

- `Nostr.utils.normalizeURL` (src/relays.ts:54): nostr-tools' canonicalisation (lower-casing,
  default-port removal, trailing slash) is not part of this model. It is the parameter
  `canonicalize` of `NormalizeUrls`, and nothing is assumed about it except in
  `NormalizeUrlsIdempotent`, which states its assumptions.
- The `RelayPool` construction, its options, and the three logging callbacks (src/relays.ts:29-44):
  these are network plumbing of an external library and only print.
- The hard-coded relay lists (src/relays.ts:4-27): plain data.
- `eventsReceived` (src/store.ts:9): declared but never read or written by the modelled code.
- Vue's `ref` reactivity (src/store.ts:1, 9-10): the map is modelled as a plain value. The source
  mutates the author's record object in place. The model builds a new record and stores it at the
  same position, so aliasing of that object by earlier readers is not modelled.
- Event fields other than `id`, `pubkey` and `created_at`, and signature verification.
- `created_at` is an unbounded integer. JavaScript numbers that are not integers, `NaN`, and
  precision loss in the comparator's subtraction are not modelled.
- EventStore.GetSortedUserEvents: its contract states a sorted permutation only. The tie order
  among authors with equal `latestCreatedAt` is whatever the stable `SortBy` gives over
  first-seen order, which matches a stable engine sort, but no lemma states it.
- EventStore.AddUserEvent: its contract likewise states a sorted permutation. The order among
  events with equal `created_at` is not stated.
- Events with a missing field: the source raises nothing for them. A missing `pubkey` files the
  event under the key `undefined`; events of one author without `id` count as duplicates of each
  other; a missing `created_at` makes the comparator yield `NaN`, which the sort treats as equal,
  and the latest-time comparison false. None of this is modelled: `Event` always carries all
  three fields.
- Relays.ReplaceFirst: the `$&`, `$$`, `` $` `` and `$'` patterns that JavaScript expands inside a
  replacement string are not interpreted; the replacement is inserted as it stands. Both calls in
  the scheme step pass `ws://` or `wss://`, which hold no `$`.
