/**
 The in-memory durable store the event framework uses in tests: a table of
 event snapshots keyed by handle path, and the queue of deferred-event
 notices. Snapshot data is opaque to the store, so it is a type parameter.
 */
module Testing {
  import opened NoticeQueue

  class MemoryStorage<D> {
    /** Handle path to saved snapshot data. */
    var snapshots: map<string, D>
    /** The notice queue, oldest first. */
    var notices: seq<Notice>

    /** A new store holds no snapshot and no notice. */
    constructor ()
      ensures snapshots == map[] && notices == []
    {
      snapshots := map[];
      notices := [];
    }

    /** Nothing to release: all state lives in memory. */
    method Close()
      ensures snapshots == old(snapshots) && notices == old(notices)
    {
    }

    /** Nothing to flush: every write is visible at once. */
    method Commit()
      ensures snapshots == old(snapshots) && notices == old(notices)
    {
    }

    /** Stores (or overwrites) the snapshot for `handlePath`; no other key and
        no notice changes. */
    method SaveSnapshot(handlePath: string, snapshotData: D)
      modifies this
      ensures snapshots == old(snapshots)[handlePath := snapshotData]
      ensures notices == old(notices)
    {
      snapshots := snapshots[handlePath := snapshotData];
    }

    /** The snapshot saved for `handlePath`, or `None` when there is none. */
    method LoadSnapshot(handlePath: string) returns (r: Option<D>)
      ensures r.Some? <==> handlePath in snapshots
      ensures r.Some? ==> r.value == snapshots[handlePath]
    {
      if handlePath in snapshots {
        r := Some(snapshots[handlePath]);
      } else {
        r := None;
      }
    }

    /** Forgets the snapshot for `handlePath`, if any; no error when there is
        none, and no other key and no notice changes. */
    method DropSnapshot(handlePath: string)
      modifies this
      ensures snapshots == old(snapshots) - {handlePath}
      ensures handlePath !in old(snapshots) ==> snapshots == old(snapshots)
      ensures notices == old(notices)
    {
      if handlePath in snapshots {
        snapshots := snapshots - {handlePath};
      }
    }

    /** Appends the notice at the end of the queue; an equal notice already
        queued is not rejected. */
    method SaveNotice(eventPath: string, observerPath: string, methodName: string)
      modifies this
      ensures notices == old(notices) + [Notice(eventPath, observerPath, methodName)]
      ensures snapshots == old(snapshots)
    {
      notices := notices + [Notice(eventPath, observerPath, methodName)];
    }

    /** Deletes the first queued notice equal to the given triple; when there
        is none, the queue stays as it is and no error is raised. */
    method DropNotice(eventPath: string, observerPath: string, methodName: string)
      modifies this
      ensures notices == RemoveFirst(old(notices), Notice(eventPath, observerPath, methodName))
      ensures Notice(eventPath, observerPath, methodName) !in old(notices) ==> notices == old(notices)
      ensures snapshots == old(snapshots)
    {
      var key := Notice(eventPath, observerPath, methodName);
      match FirstIndex(notices, key)
      case Some(i) =>
        DeleteAtFirstIndex(notices, key, i);
        notices := notices[..i] + notices[i + 1..];
      case None =>
        RemoveFirstAbsent(notices, key);
    }

    /** The queued notices for `eventPath` (all of them when the path is
        falsy), in queue order, read from a copy of the queue taken before
        the first one is reported. */
    method Notices(eventPath: Option<string>) returns (out: seq<Notice>)
      ensures out == Filter(notices, eventPath)
    {
      var copy := notices;
      out := [];
      if !IsFalsy(eventPath) {
        var i := 0;
        while i < |copy|
          invariant 0 <= i <= |copy|
          invariant out == Filter(copy[..i], eventPath)
        {
          FilterConcat(copy[..i], [copy[i]], eventPath);
          assert copy[..i + 1] == copy[..i] + [copy[i]];
          if copy[i].eventPath == eventPath.value {
            out := out + [copy[i]];
          }
          i := i + 1;
        }
      } else {
        var i := 0;
        while i < |copy|
          invariant 0 <= i <= |copy|
          invariant out == copy[..i]
        {
          assert copy[..i + 1] == copy[..i] + [copy[i]];
          out := out + [copy[i]];
          i := i + 1;
        }
        FilterFalsy(copy, eventPath);
      }
      assert copy[..|copy|] == copy;
    }
  }

  /** Saving a snapshot, loading it back, dropping it and loading again: the
      first load returns the saved data, the second reports it absent, and
      every other key keeps its snapshot. */
  method SnapshotRoundTrip<D>(store: MemoryStorage<D>, handlePath: string, snapshotData: D)
    returns (loaded: Option<D>, afterDrop: Option<D>)
    modifies store
    ensures loaded == Some(snapshotData)
    ensures afterDrop == None
    ensures store.snapshots == old(store.snapshots) - {handlePath}
    ensures store.notices == old(store.notices)
  {
    store.SaveSnapshot(handlePath, snapshotData);
    loaded := store.LoadSnapshot(handlePath);
    store.DropSnapshot(handlePath);
    afterDrop := store.LoadSnapshot(handlePath);
  }

  /** Iterating over `notices(eventPath)` while a handler drops each reported
      notice: the iteration visits exactly the notices for `eventPath` (all
      of them for a falsy path) that were queued when it began, and the queue ends up holding just the notices it did not report. */
  method DropWhileIterating<D>(store: MemoryStorage<D>, eventPath: Option<string>)
    returns (visited: seq<Notice>)
    modifies store
    ensures visited == Filter(old(store.notices), eventPath)
    ensures store.notices == Unselected(old(store.notices), eventPath)
    ensures store.snapshots == old(store.snapshots)
  {
    ghost var start := store.notices;
    visited := store.Notices(eventPath);
    var i := 0;
    assert DropEach(start, visited[..0]) == start;
    while i < |visited|
      invariant 0 <= i <= |visited|
      invariant store.notices == DropEach(start, visited[..i])
      invariant store.snapshots == old(store.snapshots)
    {
      var n := visited[i];
      ghost var before := visited[..i];
      store.DropNotice(n.eventPath, n.observerPath, n.methodName);
      assert store.notices == RemoveFirst(DropEach(start, before), n);
      DropEachSnoc(start, before, n);
      assert visited[..i + 1] == before + [n];
      i := i + 1;
    }
    assert visited[..|visited|] == visited;
    DrainReported(start, eventPath);
  }
}
