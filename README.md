# MemoryStorage: the in-memory durable store of the operator framework

The operator framework persists two things between hook invocations: snapshots
of event payloads, keyed by the event's handle path, and a queue of *notices*,
triples `(event path, observer path, method name)` that record an observer
still owing a reaction to a deferred event. `MemoryStorage` in `ops/testing.py`
is the store used in tests: both live in memory, `commit` and `close` do
nothing.

This project models that class in Dafny:

- `notice_queue.dfy`, module `NoticeQueue`: the notice triple, and value-level
  reference definitions of what the store does to its queue — `Filter` (what
  `notices(event_path)` reports), `Unselected` (what it leaves out),
  `FirstIndex` (Python's `list.index`), `RemoveFirst` (delete the first
  occurrence) and `DropEach` (a run of drops) — with the lemmas relating them.
- `testing.dfy`, module `Testing`: class `MemoryStorage<D>` with fields
  `snapshots: map<string, D>` and `notices: seq<Notice>`, one method per
  Python method, each with an `ensures` that gives its result or the new
  state; `DropNotice` and `Notices` are proved against the definitions above; and two client
  methods that compose the operations (a snapshot save/load/drop round trip,
  and handlers dropping notices while `notices()` is being iterated).

Snapshot data is opaque to the store, so it is the type parameter `D`.
`load_snapshot`'s `None` for a missing key is `Option.None`. The `event_path`
argument of `notices` is `Option<string>`: Python treats both `None` and `""`
as falsy, and then reports every notice.

The store does not enforce uniqueness of notices: `save_notice` appends a
triple even when an equal one is already queued, and `drop_notice` removes
only the first copy. The model follows the code. Saving and then dropping a
triple restores the queue when the triple was not queued (`RoundTrip`). When
it was, the multiset is restored and the order can change
(`RoundTripWhenPresent`, `RoundTripReorders`). The exact condition is that
every queued copy of the triple comes after every other notice
(`RoundTripExactly`).

## Model

| member | source | states |
|---|---|---|
| `Testing.MemoryStorage.constructor` | ops/testing.py:8-10 | a new store has an empty snapshot table and an empty notice queue |
| `Testing.MemoryStorage.Close` | ops/testing.py:12-13 | closing changes neither the snapshot table nor the queue |
| `Testing.MemoryStorage.Commit` | ops/testing.py:15-16 | committing changes neither the snapshot table nor the queue |
| `Testing.MemoryStorage.SaveSnapshot` | ops/testing.py:18-19 | afterwards the key maps to the new data, overwriting any earlier value; every other key and the queue are unchanged |
| `Testing.MemoryStorage.LoadSnapshot` | ops/testing.py:21-22 | returns the saved data exactly when the key is present, and absent (not an error) otherwise |
| `Testing.MemoryStorage.DropSnapshot` | ops/testing.py:24-25 | removes only that key; for an absent key the table is unchanged; the queue is unchanged |
| `Testing.MemoryStorage.SaveNotice` | ops/testing.py:27-28 | the queue becomes the old queue with the triple appended at the end, duplicates allowed; snapshots unchanged |
| `Testing.MemoryStorage.DropNotice` | ops/testing.py:30-35 | the queue becomes the old queue with the first occurrence of the triple removed; unchanged if it is absent; snapshots unchanged |
| `Testing.MemoryStorage.Notices` | ops/testing.py:37-50 | returns the filter of the queue by event path: all notices for a falsy path, in queue order, read from a copy |
| `Testing.SnapshotRoundTrip` | ops/testing.py:18-25 | save then load returns the saved data; after dropping, load reports it absent; the other keys and the queue are unchanged |
| `Testing.DropWhileIterating` | ops/testing.py:37-50 | a handler dropping each reported notice during iteration still visits exactly the notices queued at the start for that event path (all of them for a falsy path); at the end only the unreported notices remain |
| `NoticeQueue.FirstIndex` | ops/testing.py:31-35 | `list.index`: absent exactly when the triple is not queued; otherwise an in-range position holding it, with no earlier occurrence |
| `NoticeQueue.DeleteAtFirstIndex` | ops/testing.py:30-35 | deleting at the index `list.index` finds is the same as removing the first occurrence |
| `NoticeQueue.RemoveFirstAbsent` | ops/testing.py:32-35 | dropping a triple that is not queued leaves the queue unchanged |
| `NoticeQueue.RemoveFirstPresent` | ops/testing.py:30-35 | dropping a queued triple keeps the notices before and after its first occurrence in order, shortens the queue by one and removes exactly one copy from its multiset |
| `NoticeQueue.RemoveFirstConcat` | ops/testing.py:30-35 | removal from a concatenation acts on the first part that contains the triple |
| `NoticeQueue.RoundTrip` | ops/testing.py:27-35 | saving a triple that is not queued and then dropping it restores the original queue |
| `NoticeQueue.RoundTripWhenPresent` | ops/testing.py:27-35 | if the triple was already queued, save then drop removes the earlier copy and leaves the new one at the end, with the same multiset |
| `NoticeQueue.RoundTripReorders` | ops/testing.py:27-35 | on a queue `[a, b]`, saving and dropping `a` gives `[b, a]`: when the triple is already queued, the round trip can reorder the queue |
| `NoticeQueue.RoundTripExactly` | ops/testing.py:27-35 | saving and then dropping a triple restores the queue if and only if every queued copy of it comes after every other notice |
| `NoticeQueue.FilterConcat` | ops/testing.py:40-45 | the filter of a concatenation is the concatenation of the filters, so reported notices keep queue order |
| `NoticeQueue.UnselectedConcat` | ops/testing.py:40-45 | the same for the notices a path does not report |
| `NoticeQueue.FilterFalsy` | ops/testing.py:48-50 | for a falsy path the whole queue is reported in order, and nothing is left out |
| `NoticeQueue.FilterMembers` | ops/testing.py:42-45 | a notice is reported if and only if it is queued and its event path matches (or the path is falsy) |
| `NoticeQueue.FilterCounts` | ops/testing.py:42-45 | a matching notice is reported as many times as it is queued; a non-matching one is never reported |
| `NoticeQueue.FilterSplits` | ops/testing.py:40-50 | the reported and unreported notices together form the whole queue, as multisets |
| `NoticeQueue.FilterAfterSave` | ops/testing.py:27-45 | after a save, the filter for a path is the old filter, plus the new notice at the end if it matches |
| `NoticeQueue.FilterAfterDrop` | ops/testing.py:30-45 | after a drop, a matching path's filter loses the first copy of the notice; every other path's filter is unchanged |
| `NoticeQueue.DropEachSnoc` | ops/testing.py:30-35 | one more drop after a run of drops is one more removal of a first occurrence |
| `NoticeQueue.DropEachKeepsHead` | ops/testing.py:30-35 | drops of other triples never disturb a notice at the head of the queue |
| `NoticeQueue.DrainReported` | ops/testing.py:37-45 | dropping, in order, every notice a path reported leaves exactly the notices it did not report |

## Left out

- `Testing.MemoryStorage.LoadSnapshot`: Python's `dict.get(key, None)` cannot tell a missing key from a key whose stored data is `None`. The model keeps the data opaque and always tells them apart.
- `Testing.MemoryStorage.SaveSnapshot`, `Testing.MemoryStorage.LoadSnapshot`: Python stores `snapshot_data` by reference, so a caller that changes the object after saving it, or changes the object a load returned, changes the stored snapshot. The model stores immutable values of `D`, so this aliasing is not captured.
- `Testing.MemoryStorage.Notices`: the Python method is a generator. Its copy of the queue is taken at the first iteration, not at the call. The model takes the copy at the call and returns the whole sequence at once. So changes made between creating the generator and first iterating it are not modelled.
- The unused local `out = []` in `notices` has no behaviour and is not modelled.
- The `event_path` argument may be any Python object. The model accepts `None` or a string: an event handle path, or nothing to ask for every notice.
- Durability and serialisation: `commit` and `close` are no-ops in this class, and snapshot data is never pickled. Persistence across processes is not modelled.
- The event framework is not part of this model. That includes observer registration, emit/defer/reemit, handles and stored state.
- The test harness and its simulated backend, which `test/test_testing.py` exercises, are not part of this model either. Neither is the example charm in `test/charms/test_main/src/charm.py`.
