/** The sliding-window admission rule on abstract queue contents.

    A tenant's slot is `None` while no queue has been allocated for it and
    `Some(s)` once it has one, `s` listing the recorded request timestamps
    from head (oldest) to tail (newest). Timestamps are milliseconds. */
module SlidingWindow {

  /** Length of the trailing window in milliseconds. */
  const WINDOW_SIZE: int := 10000
  /** Most requests a tenant may have inside one window. */
  const MAX_REQ: nat := 10
  /** Capacity of the tenant table. */
  const MAX_TENANTS: nat := 100

  /** Status codes returned by the admission check. */
  const SUCCESS: int := 0
  const FAILURE: int := 1

  datatype Option<T> = None | Some(value: T)

  /** An entry is expired at `now` once it is WINDOW_SIZE or more old. */
  predicate Expired(entry: int, now: int) {
    now - entry >= WINDOW_SIZE
  }

  predicate Sorted(s: seq<int>) {
    forall i, j :: 0 <= i <= j < |s| ==> s[i] <= s[j]
  }

  /** Eviction: drop head entries while the head is expired. */
  function Evict(s: seq<int>, now: int): (live: seq<int>)
  {
    if s != [] && Expired(s[0], now) then Evict(s[1..], now) else s
  }

  /** The entries of `s` not yet expired at `now` (newer than
      `now - WINDOW_SIZE`, entries later than `now` included), in order:
      the reference that eviction is compared against. */
  function LiveAt(s: seq<int>, now: int): (r: seq<int>)
    ensures |r| <= |s|
    ensures forall x :: x in r ==> x in s && !Expired(x, now)
  {
    if s == [] then []
    else (if Expired(s[0], now) then [] else [s[0]]) + LiveAt(s[1..], now)
  }

  /** The admission decision: a request is admitted when the tenant has no
      queue yet or fewer than MAX_REQ entries survive eviction. */
  predicate Admits(slot: Option<seq<int>>, now: int) {
    slot.None? || |Evict(slot.value, now)| < MAX_REQ
  }

  /** The slot after one check at `now` whose admission records `recorded`. */
  function AfterCheck(slot: Option<seq<int>>, now: int, recorded: int): (after: Option<seq<int>>) {
    match slot
    case None => Some([recorded])
    case Some(s) =>
      var live := Evict(s, now);
      if |live| < MAX_REQ then Some(live + [recorded]) else Some(live)
  }

  predicate Bounded(slot: Option<seq<int>>) {
    slot.None? || |slot.value| <= MAX_REQ
  }

  // ---------------------------------------------------------------------
  // Eviction

  /** What eviction leaves: the suffix of `s` that starts at its first
      unexpired entry, every entry before it being expired. */
  lemma {:induction false} EvictShape(s: seq<int>, now: int)
    ensures |Evict(s, now)| <= |s| && Evict(s, now) == s[|s| - |Evict(s, now)|..]
    ensures Evict(s, now) == [] || !Expired(Evict(s, now)[0], now)
    ensures forall i :: 0 <= i < |s| - |Evict(s, now)| ==> Expired(s[i], now)
  {
    if s != [] && Expired(s[0], now) {
      EvictShape(s[1..], now);
      var r := Evict(s, now);
      forall i | 0 <= i < |s| - |r| ensures Expired(s[i], now) {
        if i > 0 {
          assert s[i] == s[1..][i - 1];
        }
      }
    }
  }

  /** Eviction is pinned down by its contract: any suffix that starts at the
      first unexpired entry is the one Evict returns. */
  lemma {:induction false} EvictUnique(s: seq<int>, now: int, k: nat)
    requires k <= |s|
    requires forall i :: 0 <= i < k ==> Expired(s[i], now)
    requires k == |s| || !Expired(s[k], now)
    ensures Evict(s, now) == s[k..]
  {
    EvictShape(s, now);
  }

  /** Evicting everything that is expired at `now` leaves nothing to evict. */
  lemma EvictIdempotent(s: seq<int>, now: int)
    ensures Evict(Evict(s, now), now) == Evict(s, now)
  {
    EvictShape(s, now);
    EvictUnique(Evict(s, now), now, 0);
  }

  /** Head-only eviction of a sorted queue removes exactly the expired
      entries: what survives is every entry not yet
      expired at `now`. */
  lemma {:induction false} EvictSortedIsLive(s: seq<int>, now: int)
    requires Sorted(s)
    ensures Evict(s, now) == LiveAt(s, now)
  {
    if s == [] {
    } else if Expired(s[0], now) {
      EvictSortedIsLive(s[1..], now);
    } else {
      AllLive(s, now);
    }
  }

  lemma {:induction false} AllLive(s: seq<int>, now: int)
    requires forall i :: 0 <= i < |s| ==> !Expired(s[i], now)
    ensures LiveAt(s, now) == s
  {
    if s != [] {
      AllLive(s[1..], now);
    }
  }

  lemma {:induction false} LiveAtAppend(a: seq<int>, b: seq<int>, now: int)
    ensures LiveAt(a + b, now) == LiveAt(a, now) + LiveAt(b, now)
  {
    if a != [] {
      assert (a + b)[0] == a[0];
      assert (a + b)[1..] == a[1..] + b;
      LiveAtAppend(a[1..], b, now);
    } else {
      assert a + b == b;
    }
  }

  lemma {:induction false} LiveAtSorted(s: seq<int>, now: int)
    requires Sorted(s)
    ensures Sorted(LiveAt(s, now))
  {
    if s != [] {
      LiveAtSorted(s[1..], now);
      var tail := LiveAt(s[1..], now);
      forall x | x in tail ensures s[0] <= x {
        var i :| 0 <= i < |s[1..]| && s[1..][i] == x;
      }
      if !Expired(s[0], now) {
        SortedPrepend(s[0], tail);
      }
    }
  }

  lemma SortedPrepend(x: int, s: seq<int>)
    requires Sorted(s) && forall y :: y in s ==> x <= y
    ensures Sorted([x] + s)
  {
    var r := [x] + s;
    forall i, j | 0 <= i <= j < |r| ensures r[i] <= r[j] {
      if i == 0 && j > 0 {
        assert r[j] == s[j - 1] && s[j - 1] in s;
      } else if i > 0 {
        assert r[i] == s[i - 1] && r[j] == s[j - 1];
      }
    }
  }

  lemma SortedAppend(s: seq<int>, x: int)
    requires Sorted(s) && forall y :: y in s ==> y <= x
    ensures Sorted(s + [x])
  {
    var r := s + [x];
    forall i, j | 0 <= i <= j < |r| ensures r[i] <= r[j] {
      if j == |s| && i < |s| {
        assert r[i] in s;
      }
    }
  }

  /** Filtering at a later time keeps only what the earlier filter kept. */
  lemma {:induction false} LiveAtLater(s: seq<int>, earlier: int, now: int)
    requires earlier <= now
    ensures LiveAt(LiveAt(s, earlier), now) == LiveAt(s, now)
  {
    if s != [] {
      LiveAtLater(s[1..], earlier, now);
      var head := if Expired(s[0], earlier) then [] else [s[0]];
      LiveAtAppend(head, LiveAt(s[1..], earlier), now);
      if !Expired(s[0], earlier) {
        assert LiveAt(head, now) == (if Expired(s[0], now) then [] else [s[0]]) + LiveAt([], now);
      }
    }
  }

  // ---------------------------------------------------------------------
  // One admission check

  /** The check never lets a tenant hold more than MAX_REQ entries. */
  lemma CheckKeepsBound(slot: Option<seq<int>>, now: int, recorded: int)
    requires Bounded(slot)
    ensures Bounded(AfterCheck(slot, now, recorded))
    ensures 1 <= |AfterCheck(slot, now, recorded).value|
  {
    if slot.Some? {
      EvictShape(slot.value, now);
    }
  }

  /** A rejected request at most MAX_REQ entries deep evicts nothing and
      appends nothing. */
  lemma RejectChangesNothing(slot: Option<seq<int>>, now: int, recorded: int)
    requires Bounded(slot) && !Admits(slot, now)
    ensures AfterCheck(slot, now, recorded) == slot
  {
    var s := slot.value;
    EvictShape(s, now);
    assert |Evict(s, now)| == |s|;
  }

  /** Repeating a rejected check at the same time is rejected again and
      leaves the slot as the first rejection left it. */
  lemma RejectIdempotent(slot: Option<seq<int>>, now: int, r1: int, r2: int)
    requires Bounded(slot) && !Admits(slot, now)
    ensures !Admits(AfterCheck(slot, now, r1), now)
    ensures AfterCheck(AfterCheck(slot, now, r1), now, r2) == AfterCheck(slot, now, r1)
  {
    RejectChangesNothing(slot, now, r1);
    RejectChangesNothing(slot, now, r2);
  }

  /** A queue whose entries are sorted stays sorted when the recorded time
      is no earlier than its newest entry, and its head never moves back. */
  lemma CheckKeepsSorted(slot: Option<seq<int>>, now: int, recorded: int)
    requires slot.Some? ==> Sorted(slot.value) && (slot.value == [] || slot.value[|slot.value| - 1] <= recorded)
    ensures Sorted(AfterCheck(slot, now, recorded).value)
    ensures slot.Some? && slot.value != [] && AfterCheck(slot, now, recorded).value != [] ==>
      slot.value[0] <= AfterCheck(slot, now, recorded).value[0]
  {
    if slot.Some? {
      var s := slot.value;
      EvictShape(s, now);
      var live := Evict(s, now);
      var m := |s| - |live|;
      assert Sorted(live) by {
        forall i, j | 0 <= i <= j < |live| ensures live[i] <= live[j] {
          assert live[i] == s[m + i] && live[j] == s[m + j];
        }
      }
      if |live| < MAX_REQ {
        forall y | y in live ensures y <= recorded {
          var i :| 0 <= i < |live| && live[i] == y;
          assert live[i] == s[m + i];
        }
        SortedAppend(live, recorded);
      }
      if s != [] && live != [] {
        assert live[0] == s[m];
      }
    }
  }

  // ---------------------------------------------------------------------
  // Concrete window behaviour at the configured constants

  /** A tenant with k < MAX_REQ requests at instant t is admitted again at t. */
  lemma SameInstantAdmitted(t: int, k: nat)
    requires k < MAX_REQ
    ensures Admits(Some(seq(k, _ => t)), t)
    ensures AfterCheck(Some(seq(k, _ => t)), t, t) == Some(seq(k + 1, _ => t))
  {
    var s := seq(k, _ => t);
    EvictUnique(s, t, 0);
    assert s + [t] == seq(k + 1, _ => t);
  }

  /** The (MAX_REQ + 1)-th request at the same instant is rejected. */
  lemma SameInstantRejected(t: int)
    ensures !Admits(Some(seq(MAX_REQ, _ => t)), t)
  {
    EvictUnique(seq(MAX_REQ, _ => t), t, 0);
  }

  /** A full quota taken at t0 has expired exactly WINDOW_SIZE later, but
      not one millisecond earlier. */
  lemma QuotaExpiresAtBoundary(t0: int, recorded: int)
    ensures Admits(Some(seq(MAX_REQ, _ => t0)), t0 + WINDOW_SIZE)
    ensures AfterCheck(Some(seq(MAX_REQ, _ => t0)), t0 + WINDOW_SIZE, recorded) == Some([recorded])
    ensures !Admits(Some(seq(MAX_REQ, _ => t0)), t0 + WINDOW_SIZE - 1)
  {
    var s := seq(MAX_REQ, _ => t0);
    EvictUnique(s, t0 + WINDOW_SIZE, MAX_REQ);
    assert Evict(s, t0 + WINDOW_SIZE) == [];
    assert [] + [recorded] == [recorded];
    EvictUnique(s, t0 + WINDOW_SIZE - 1, 0);
  }

  // ---------------------------------------------------------------------
  // Whole request traces

  /** The slot after checking every request of `times` in order, starting
      from an unallocated slot, each admission recording its own time. */
  function StateAfter(times: seq<int>): (slot: Option<seq<int>>)
    decreases |times|
  {
    if times == [] then None
    else
      var t := times[|times| - 1];
      AfterCheck(StateAfter(times[..|times| - 1]), t, t)
  }

  /** The request times among `times` that the limiter admitted. */
  function AdmittedTimes(times: seq<int>): (r: seq<int>)
    ensures forall x :: x in r ==> x in times
    decreases |times|
  {
    if times == [] then []
    else
      var prefix := times[..|times| - 1];
      var t := times[|times| - 1];
      AdmittedTimes(prefix) + (if Admits(StateAfter(prefix), t) then [t] else [])
  }

  lemma {:induction false} AdmittedSorted(times: seq<int>)
    requires Sorted(times)
    ensures Sorted(AdmittedTimes(times))
  {
    if times != [] {
      var prefix := times[..|times| - 1];
      var t := times[|times| - 1];
      assert Sorted(prefix);
      AdmittedSorted(prefix);
      var admitted := AdmittedTimes(prefix);
      if Admits(StateAfter(prefix), t) {
        forall x | x in admitted ensures x <= t {
          assert x in prefix;
          var i :| 0 <= i < |prefix| && prefix[i] == x;
          assert times[i] == x;
        }
        SortedAppend(admitted, t);
      }
    }
  }

  /** One step of a time-ordered trace: if the slot holds the admitted
      times still live at the previous request, then after the check at `t`
      it holds the (possibly extended) admitted times live at `t`. */
  lemma {:induction false} CheckStep(admitted: seq<int>, previous: int, t: int)
    requires Sorted(admitted) && previous <= t
    ensures AfterCheck(Some(LiveAt(admitted, previous)), t, t)
      == Some(LiveAt(admitted + (if Admits(Some(LiveAt(admitted, previous)), t) then [t] else []), t))
  {
    var before := LiveAt(admitted, previous);
    var live := LiveAt(admitted, t);
    LiveAtSorted(admitted, previous);
    EvictSortedIsLive(before, t);
    LiveAtLater(admitted, previous, t);
    assert Evict(before, t) == live;
    if |live| < MAX_REQ {
      LiveAtAppend(admitted, [t], t);
      LiveAtNow(t);
      assert LiveAt(admitted + [t], t) == live + [t];
    } else {
      assert admitted + [] == admitted;
    }
  }

  lemma LiveAtNow(t: int)
    ensures LiveAt([t], t) == [t]
  {
    assert [t][1..] == [];
  }

  /** The queue of a tenant whose requests arrive in time order and record
      their own time holds exactly the admitted requests that are still
      inside the window ending at the latest request. */
  lemma {:induction false} TraceState(times: seq<int>)
    requires Sorted(times) && times != []
    ensures StateAfter(times) == Some(LiveAt(AdmittedTimes(times), times[|times| - 1]))
    ensures Bounded(StateAfter(times))
  {
    var prefix := times[..|times| - 1];
    var t := times[|times| - 1];
    assert Sorted(prefix);
    if prefix == [] {
      assert AdmittedTimes(times) == [t];
      LiveAtNow(t);
    } else {
      TraceState(prefix);
      AdmittedSorted(prefix);
      CheckStep(AdmittedTimes(prefix), prefix[|prefix| - 1], t);
    }
    CheckKeepsBound(StateAfter(prefix), t, t);
  }

  /** The rate limit itself: for time-ordered requests, at most MAX_REQ of
      the admitted ones lie in the window `(t - WINDOW_SIZE, t]` ending at
      any request time t. */
  lemma WindowQuota(times: seq<int>, k: nat)
    requires Sorted(times) && 0 < k <= |times|
    ensures |LiveAt(AdmittedTimes(times[..k]), times[k - 1])| <= MAX_REQ
  {
    var prefix := times[..k];
    assert Sorted(prefix);
    TraceState(prefix);
  }

  /** A tenant whose last request was a full window ago finds its queue
      drained by eviction, is admitted, and is left holding only the new
      request. */
  lemma IdleTenantReadmitted(times: seq<int>, now: int)
    requires Sorted(times) && times != []
    requires now - times[|times| - 1] >= WINDOW_SIZE
    ensures StateAfter(times).Some? && Evict(StateAfter(times).value, now) == []
    ensures Admits(StateAfter(times), now)
    ensures StateAfter(times + [now]) == Some([now])
  {
    var last := times[|times| - 1];
    TraceState(times);
    var kept := LiveAt(AdmittedTimes(times), last);
    forall x | x in kept ensures Expired(x, now) {
      var i :| 0 <= i < |times| && times[i] == x;
    }
    EvictShape(kept, now);
    assert (times + [now])[..|times|] == times;
    assert Evict(kept, now) + [now] == [now];
  }

  /** A queue whose every entry is expired is drained completely. */
  lemma {:induction false} EvictAllExpired(s: seq<int>, now: int)
    requires forall x :: x in s ==> Expired(x, now)
    ensures Evict(s, now) == []
  {
    if s != [] {
      assert s[0] in s;
      assert forall x :: x in s[1..] ==> x in s;
      EvictAllExpired(s[1..], now);
    }
  }

  /** A time-ordered queue whose newest recorded entry is WINDOW_SIZE or
      more old is drained by eviction; the request is admitted and the queue
      then holds only the new clock read. */
  lemma StaleQueueDrained(s: seq<int>, now: int, recorded: int)
    requires Sorted(s) && s != [] && Expired(s[|s| - 1], now)
    ensures Evict(s, now) == []
    ensures Admits(Some(s), now)
    ensures AfterCheck(Some(s), now, recorded) == Some([recorded])
  {
    assert forall x :: x in s ==> Expired(x, now);
    EvictAllExpired(s, now);
    assert Evict(s, now) + [recorded] == [recorded];
  }
}
