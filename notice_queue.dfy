/**
 The notice queue of the in-memory store, as values: the notice triple, the
 filter that `notices(event_path)` applies, the "remove first occurrence"
 behaviour of `drop_notice`, and the lemmas that relate them.
 */
module NoticeQueue {

  datatype Option<+T> = None | Some(value: T)

  /** A deferred-event obligation: (event handle path, observer handle path, method name). */
  datatype Notice = Notice(eventPath: string, observerPath: string, methodName: string)

  /** Python truthiness of the `event_path` argument: `None` and `""` are falsy. */
  predicate IsFalsy(eventPath: Option<string>)
  {
    eventPath.None? || eventPath.value == ""
  }

  /** Whether `notices(eventPath)` reports notice `n`: every notice for a falsy
      path, otherwise exactly those whose event path is equal to it. */
  predicate Selected(eventPath: Option<string>, n: Notice)
  {
    IsFalsy(eventPath) || n.eventPath == eventPath.value
  }

  /** The notices `notices(eventPath)` reports, in queue order (the reference definition). */
  function Filter(s: seq<Notice>, eventPath: Option<string>): seq<Notice>
  {
    if s == [] then []
    else (if Selected(eventPath, s[0]) then [s[0]] else []) + Filter(s[1..], eventPath)
  }

  /** The notices `notices(eventPath)` does not report, in queue order. */
  function Unselected(s: seq<Notice>, eventPath: Option<string>): seq<Notice>
  {
    if s == [] then []
    else (if Selected(eventPath, s[0]) then [] else [s[0]]) + Unselected(s[1..], eventPath)
  }

  /** Python's `list.index`: the position of the first occurrence of `x`, or
      `None` where Python raises `ValueError`. */
  function FirstIndex<T(==)>(s: seq<T>, x: T): (r: Option<nat>)
    ensures r.None? <==> x !in s
    ensures r.Some? ==> r.value < |s| && s[r.value] == x
    ensures r.Some? ==> forall j :: 0 <= j < r.value ==> s[j] != x
  {
    if s == [] then None
    else if s[0] == x then Some(0)
    else match FirstIndex(s[1..], x)
      case None => None
      case Some(i) => Some(i + 1)
  }

  /** The queue after removing the first occurrence of `x` (the reference
      definition of `drop_notice`); unchanged when `x` does not occur. */
  function RemoveFirst<T(==)>(s: seq<T>, x: T): seq<T>
  {
    if s == [] then []
    else if s[0] == x then s[1..]
    else [s[0]] + RemoveFirst(s[1..], x)
  }

  /** The queue after dropping each of `ts`, one `drop_notice` after another. */
  function DropEach<T(==)>(s: seq<T>, ts: seq<T>): seq<T>
    decreases ts
  {
    if ts == [] then s else DropEach(RemoveFirst(s, ts[0]), ts[1..])
  }

  // ---------------------------------------------------------------------------
  // drop_notice: delete at the first index is removal of the first occurrence

  /** Deleting at the index `list.index` finds is removing the first occurrence. */
  lemma {:induction false} DeleteAtFirstIndex<T>(s: seq<T>, x: T, i: nat)
    requires FirstIndex(s, x) == Some(i)
    ensures s[..i] + s[i + 1..] == RemoveFirst(s, x)
  {
    if s[0] != x {
      assert FirstIndex(s[1..], x) == Some(i - 1);
      DeleteAtFirstIndex(s[1..], x, i - 1);
      assert s[1..][..i - 1] == s[1..i];
      assert s[1..][i - 1 + 1..] == s[i + 1..];
      assert s[..i] == [s[0]] + s[1..i];
    }
  }

  /** Removing a notice that is not queued changes nothing. */
  lemma {:induction false} RemoveFirstAbsent<T>(s: seq<T>, x: T)
    requires x !in s
    ensures RemoveFirst(s, x) == s
  {
    if s != [] {
      assert s[0] != x;
      RemoveFirstAbsent(s[1..], x);
    }
  }

  /** Removing a queued notice removes exactly one copy of it, keeps every
      notice before its first occurrence and every notice after it in order. */
  lemma {:induction false} RemoveFirstPresent<T>(s: seq<T>, x: T)
    requires x in s
    ensures var i := FirstIndex(s, x).value;
      RemoveFirst(s, x) == s[..i] + s[i + 1..]
    ensures |RemoveFirst(s, x)| == |s| - 1
    ensures multiset(RemoveFirst(s, x)) == multiset(s) - multiset{x}
  {
    var i := FirstIndex(s, x).value;
    DeleteAtFirstIndex(s, x, i);
    assert s == s[..i] + [x] + s[i + 1..];
    assert multiset(s) == multiset(s[..i]) + multiset{x} + multiset(s[i + 1..]);
  }

  /** Removing from a concatenation removes from the first part that holds `x`. */
  lemma {:induction false} RemoveFirstConcat<T>(s: seq<T>, t: seq<T>, x: T)
    ensures RemoveFirst(s + t, x) == if x in s then RemoveFirst(s, x) + t else s + RemoveFirst(t, x)
  {
    if s == [] {
      assert s + t == t;
    } else {
      assert (s + t)[0] == s[0];
      assert (s + t)[1..] == s[1..] + t;
      if s[0] != x {
        RemoveFirstConcat(s[1..], t, x);
        assert x in s <==> x in s[1..];
      }
    }
  }

  /** Round trip: saving a notice that is not queued and then dropping it
      restores the original queue. */
  lemma RoundTrip<T>(s: seq<T>, x: T)
    requires x !in s
    ensures RemoveFirst(s + [x], x) == s
  {
    RemoveFirstConcat(s, [x], x);
    assert RemoveFirst([x], x) == [];
    assert s + [] == s;
  }

  /** When the notice is already queued, the same round trip keeps the multiset
      of notices but moves the earlier copy to the end. */
  lemma RoundTripWhenPresent<T>(s: seq<T>, x: T)
    requires x in s
    ensures RemoveFirst(s + [x], x) == RemoveFirst(s, x) + [x]
    ensures multiset(RemoveFirst(s + [x], x)) == multiset(s)
  {
    RemoveFirstConcat(s, [x], x);
    RemoveFirstPresent(s, x);
  }

  /** A concrete case of the above where the order changes: queue [a, b],
      save a, drop a, and the queue is [b, a]. */
  lemma RoundTripReorders<T>(a: T, b: T)
    requires a != b
    ensures RemoveFirst([a, b] + [a], a) == [b, a] != [a, b]
  {
  }

  /** Every copy of `x` in `s` comes after every other notice. */
  ghost predicate CopiesAtEnd<T>(s: seq<T>, x: T)
  {
    forall i, j :: 0 <= i < j < |s| && s[i] == x ==> s[j] == x
  }

  /** A queue equal to itself shifted left by one, with `x` appended, holds
      nothing but copies of `x`. */
  lemma {:induction false} ShiftFixedAllCopies<T>(s: seq<T>, x: T)
    requires s != [] && s[1..] + [x] == s
    ensures forall j :: 0 <= j < |s| ==> s[j] == x
  {
    if |s| == 1 {
      assert s[0] == (s[1..] + [x])[0];
    } else {
      var t := s[1..];
      assert t[1..] + [x] == (s[1..] + [x])[1..];
      ShiftFixedAllCopies(t, x);
      assert s[0] == (s[1..] + [x])[0] == t[0];
    }
  }

  /** The exact condition for the round trip: saving `x` and then dropping it
      restores the queue if and only if every copy of `x` already queued sits
      after every other notice (in particular, when `x` is not queued). */
  lemma {:induction false} RoundTripExactly<T>(s: seq<T>, x: T)
    ensures RemoveFirst(s + [x], x) == s <==> CopiesAtEnd(s, x)
  {
    if s == [] {
      assert s + [x] == [x];
    } else {
      var r := s[1..];
      assert (s + [x])[0] == s[0];
      assert (s + [x])[1..] == r + [x];
      if s[0] == x {
        assert RemoveFirst(s + [x], x) == r + [x];
        if r + [x] == s {
          ShiftFixedAllCopies(s, x);
        }
        if CopiesAtEnd(s, x) {
          assert forall j :: 0 <= j < |s| ==> s[j] == x by {
            forall j | 0 < j < |s| ensures s[j] == x {
              assert s[0] == x;
            }
          }
          assert r + [x] == s;
        }
      } else {
        RoundTripExactly(r, x);
        assert RemoveFirst(s + [x], x) == [s[0]] + RemoveFirst(r + [x], x);
        assert s == [s[0]] + r;
        assert CopiesAtEnd(s, x) <==> CopiesAtEnd(r, x) by {
          if CopiesAtEnd(r, x) {
            forall i, j | 0 <= i < j < |s| && s[i] == x ensures s[j] == x {
              assert r[i - 1] == s[i] && r[j - 1] == s[j];
            }
          }
          if CopiesAtEnd(s, x) {
            forall i, j | 0 <= i < j < |r| && r[i] == x ensures r[j] == x {
              assert s[i + 1] == r[i] && s[j + 1] == r[j];
            }
          }
        }
      }
    }
  }

  // ---------------------------------------------------------------------------
  // notices(event_path): an order-preserving filter

  /** The filter of a concatenation is the concatenation of the filters, so
      the reported notices keep their queue order. */
  lemma {:induction false} FilterConcat(s: seq<Notice>, t: seq<Notice>, eventPath: Option<string>)
    ensures Filter(s + t, eventPath) == Filter(s, eventPath) + Filter(t, eventPath)
  {
    if s == [] {
      assert s + t == t;
    } else {
      assert (s + t)[0] == s[0];
      assert (s + t)[1..] == s[1..] + t;
      FilterConcat(s[1..], t, eventPath);
    }
  }

  /** The same for the notices that are not reported. */
  lemma {:induction false} UnselectedConcat(s: seq<Notice>, t: seq<Notice>, eventPath: Option<string>)
    ensures Unselected(s + t, eventPath) == Unselected(s, eventPath) + Unselected(t, eventPath)
  {
    if s == [] {
      assert s + t == t;
    } else {
      assert (s + t)[0] == s[0];
      assert (s + t)[1..] == s[1..] + t;
      UnselectedConcat(s[1..], t, eventPath);
    }
  }

  /** A falsy event path reports the whole queue, in order, and leaves nothing out. */
  lemma {:induction false} FilterFalsy(s: seq<Notice>, eventPath: Option<string>)
    requires IsFalsy(eventPath)
    ensures Filter(s, eventPath) == s
    ensures Unselected(s, eventPath) == []
  {
    if s != [] {
      FilterFalsy(s[1..], eventPath);
    }
  }

  /** A notice is reported exactly when it is queued and selected. */
  lemma {:induction false} FilterMembers(s: seq<Notice>, eventPath: Option<string>, n: Notice)
    ensures n in Filter(s, eventPath) <==> n in s && Selected(eventPath, n)
  {
    if s != [] {
      FilterMembers(s[1..], eventPath, n);
      assert n in s <==> n == s[0] || n in s[1..];
    }
  }

  /** Each selected notice is reported as many times as it is queued, duplicates
      included; an unselected one never. */
  lemma {:induction false} FilterCounts(s: seq<Notice>, eventPath: Option<string>, n: Notice)
    ensures multiset(Filter(s, eventPath))[n] == if Selected(eventPath, n) then multiset(s)[n] else 0
  {
    if s != [] {
      FilterCounts(s[1..], eventPath, n);
      assert s == [s[0]] + s[1..];
      assert multiset(s) == multiset{s[0]} + multiset(s[1..]);
    }
  }

  /** Reported and unreported notices together are all the queued ones. */
  lemma {:induction false} FilterSplits(s: seq<Notice>, eventPath: Option<string>)
    ensures multiset(Filter(s, eventPath)) + multiset(Unselected(s, eventPath)) == multiset(s)
  {
    if s != [] {
      FilterSplits(s[1..], eventPath);
      assert s == [s[0]] + s[1..];
      assert multiset(s) == multiset{s[0]} + multiset(s[1..]);
    }
  }

  /** Saving a notice adds it at the end of what its event path reports, and
      changes nothing that other event paths report. */
  lemma FilterAfterSave(s: seq<Notice>, n: Notice, eventPath: Option<string>)
    ensures Filter(s + [n], eventPath) ==
      Filter(s, eventPath) + (if Selected(eventPath, n) then [n] else [])
  {
    FilterConcat(s, [n], eventPath);
    assert [n][1..] == [];
  }

  /** Dropping a notice removes its first occurrence from what its event path
      reports, and changes nothing that other event paths report. */
  lemma {:induction false} FilterAfterDrop(s: seq<Notice>, n: Notice, eventPath: Option<string>)
    ensures Filter(RemoveFirst(s, n), eventPath) ==
      if Selected(eventPath, n) then RemoveFirst(Filter(s, eventPath), n) else Filter(s, eventPath)
  {
    if s != [] {
      FilterAfterDrop(s[1..], n, eventPath);
      if s[0] != n && Selected(eventPath, s[0]) {
        assert Filter(s, eventPath) == [s[0]] + Filter(s[1..], eventPath);
        assert RemoveFirst(s, n) == [s[0]] + RemoveFirst(s[1..], n);
        assert RemoveFirst(s, n)[1..] == RemoveFirst(s[1..], n);
      } else if s[0] != n {
        var r := RemoveFirst(s[1..], n);
        assert RemoveFirst(s, n) == [s[0]] + r;
        assert ([s[0]] + r)[1..] == r;
        assert Filter(RemoveFirst(s, n), eventPath) == Filter(r, eventPath);
        assert Filter(s, eventPath) == Filter(s[1..], eventPath);
      }
    }
  }

  // ---------------------------------------------------------------------------
  // Dropping while iterating over what notices() reported

  /** Dropping one more notice after a run of drops. */
  lemma {:induction false} DropEachSnoc<T>(s: seq<T>, ts: seq<T>, x: T)
    ensures DropEach(s, ts + [x]) == RemoveFirst(DropEach(s, ts), x)
    decreases ts
  {
    if ts == [] {
      assert ts + [x] == [x];
    } else {
      assert (ts + [x])[0] == ts[0];
      assert (ts + [x])[1..] == ts[1..] + [x];
      DropEachSnoc(RemoveFirst(s, ts[0]), ts[1..], x);
    }
  }

  /** Drops of other notices pass over a leading notice. */
  lemma {:induction false} DropEachKeepsHead<T>(x: T, s: seq<T>, ts: seq<T>)
    requires x !in ts
    ensures DropEach([x] + s, ts) == [x] + DropEach(s, ts)
    decreases ts
  {
    if ts != [] {
      assert ([x] + s)[1..] == s;
      assert RemoveFirst([x] + s, ts[0]) == [x] + RemoveFirst(s, ts[0]);
      DropEachKeepsHead(x, RemoveFirst(s, ts[0]), ts[1..]);
    }
  }

  /** Handlers that drop each notice `notices(eventPath)` reported, while the
      iteration runs, leave exactly the notices it did not report: the copy
      taken first makes every reported notice be visited once. */
  lemma {:induction false} DrainReported(s: seq<Notice>, eventPath: Option<string>)
    ensures DropEach(s, Filter(s, eventPath)) == Unselected(s, eventPath)
  {
    if s != [] {
      var x, r := s[0], s[1..];
      assert s == [x] + r;
      DrainReported(r, eventPath);
      if Selected(eventPath, x) {
        assert Filter(s, eventPath) == [x] + Filter(r, eventPath);
        assert RemoveFirst(s, x) == r;
      } else {
        assert Filter(s, eventPath) == Filter(r, eventPath);
        assert Unselected(s, eventPath) == [x] + Unselected(r, eventPath);
        FilterMembers(r, eventPath, x);
        DropEachKeepsHead(x, r, Filter(r, eventPath));
      }
    }
  }
}
