/** The threaded copy of the rate limiter with its per-queue mutex calls
    dropped. It shares the queue type, allocation, dequeue and destruction
    with the single-threaded copy; what differs is its enqueue, which has no
    branch for an allocated queue that holds no node, and therefore its
    admission check, which reaches that enqueue with a null tail whenever
    eviction drains an existing queue. */
module RateLimiterMt {
  import opened SlidingWindow
  import opened LinkedQueue
  import RateLimiter

  /** The result of one check: the two status codes of the source, and the
      null dereference its enqueue performs on a drained queue. */
  datatype Outcome = Admitted | Rejected | NullDereference

  /** enqueue of the threaded copy: link the new node after `tail`
      unconditionally, so an existing queue must have a non-null tail. */
  method EnqueueThreaded(q: Queue?, data: int) returns (r: Queue)
    requires q != null ==> q.Valid() && q.tail != null
    modifies if q != null then q.Repr else {}
    ensures r.Valid() && r.tail != null && r.tail.data == data
    ensures q == null ==> fresh(r.Repr) && r.Contents == [data] && r.size == 1
    ensures q != null ==>
      r == q && r.Contents == old(q.Contents) + [data] && r.size == old(q.size) + 1 &&
      old(q.Repr) <= r.Repr && fresh(r.Repr - old(q.Repr))
  {
    if q == null {
      r := new Queue.Initialize(data);
      return;
    }
    var temp := new Node(data);
    q.tail.next := temp;
    q.tail := temp;
    q.size := q.size + 1;
    q.Contents := q.Contents + [data];
    q.Nodes := q.Nodes + [temp];
    q.Repr := q.Repr + {temp};
    r := q;
  }

  /** What check_allowed does with a slot at `now`: an absent queue is
      admitted; a queue still holding MAX_REQ entries after eviction is
      rejected; any other existing queue is admitted through the threaded
      enqueue, which dereferences the null tail of a queue that eviction
      left without nodes. */
  function ThreadedOutcome(slot: Option<seq<int>>, now: int): (outcome: Outcome) {
    if slot.None? then Admitted
    else if |Evict(slot.value, now)| >= MAX_REQ then Rejected
    else if Evict(slot.value, now) == [] then NullDereference
    else Admitted
  }

  /** check_allowed: the same eviction loop and capacity test as the
      single-threaded check, then the threaded enqueue. When that enqueue's
      precondition fails the check stops with NullDereference, leaving the
      drained queue as the fault found it. */
  method CheckAllowed(q: Queue?, timestamp: int, recorded: int) returns (r: Queue?, outcome: Outcome)
    requires q != null ==> q.Valid()
    modifies if q != null then q.Repr else {}
    ensures r != null ==> r.Valid()
    ensures outcome == ThreadedOutcome(old(Model(q)), timestamp)
    ensures outcome != NullDereference ==> Model(r) == AfterCheck(old(Model(q)), timestamp, recorded)
    ensures outcome == NullDereference ==> r == q && r.Contents == [] && r.tail == null
    ensures q == null ==> r != null && fresh(r.Repr)
    ensures q != null ==> r == q && fresh(r.Repr - old(q.Repr))
  {
    RateLimiter.EvictExpired(q, timestamp);
    if q == null || q.size < MAX_REQ {
      if q != null && q.tail == null {
        r, outcome := q, NullDereference;
        return;
      }
      r := EnqueueThreaded(q, recorded);
      outcome := Admitted;
    } else {
      r, outcome := q, Rejected;
    }
  }

  /** The threaded check faults exactly when an existing queue has nothing
      left after eviction. */
  lemma FaultIffDrained(slot: Option<seq<int>>, now: int)
    ensures ThreadedOutcome(slot, now) == NullDereference <==>
      slot.Some? && Evict(slot.value, now) == []
  {
  }

  /** Short of that fault, the threaded check decides as the single-threaded
      one does. */
  lemma AgreesUnlessFault(slot: Option<seq<int>>, now: int)
    requires ThreadedOutcome(slot, now) != NullDereference
    ensures ThreadedOutcome(slot, now) == Admitted <==> Admits(slot, now)
  {
  }

  /** A tenant's run of the threaded copy: the slot while it runs, or the
      fault that ends it. */
  datatype Run = Running(slot: Option<seq<int>>) | Crashed

  /** The threaded copy over a time-ordered list of requests, each
      admission recording its own time. */
  function ThreadedRun(times: seq<int>): (run: Run)
    decreases |times|
  {
    if times == [] then Running(None)
    else
      var t := times[|times| - 1];
      match ThreadedRun(times[..|times| - 1])
      case Crashed => Crashed
      case Running(slot) =>
        if ThreadedOutcome(slot, t) == NullDereference then Crashed
        else Running(AfterCheck(slot, t, t))
  }

  /** Until it faults, the threaded copy is in the single-threaded copy's
      state. */
  lemma {:induction false} RunMatchesSingleThreaded(times: seq<int>)
    ensures ThreadedRun(times).Running? ==> ThreadedRun(times).slot == StateAfter(times)
    decreases |times|
  {
    if times != [] {
      RunMatchesSingleThreaded(times[..|times| - 1]);
    }
  }

  /** Every entry older than a window is gone: a tenant whose last request
      was a full window ago faults the threaded copy on its next request. */
  lemma IdleTenantFaults(times: seq<int>, now: int)
    requires Sorted(times) && times != []
    requires ThreadedRun(times).Running?
    requires now - times[|times| - 1] >= WINDOW_SIZE
    ensures ThreadedRun(times + [now]) == Crashed
  {
    RunMatchesSingleThreaded(times);
    IdleTenantReadmitted(times, now);
    assert (times + [now])[..|times|] == times;
  }

  /** The shortest such run: one request at time 0, the next one window
      later. The single-threaded copy admits it and keeps only the new
      entry. */
  lemma SecondRequestAfterIdleWindow()
    ensures ThreadedRun([0, WINDOW_SIZE]) == Crashed
    ensures StateAfter([0, WINDOW_SIZE]) == Some([WINDOW_SIZE])
  {
    assert [0, WINDOW_SIZE][..1] == [0];
    assert [0][..0] == [];
    assert StateAfter([0]) == Some([0]);
    EvictUnique([0], WINDOW_SIZE, 1);
    assert Evict([0], WINDOW_SIZE) + [WINDOW_SIZE] == [WINDOW_SIZE];
    assert [0] + [WINDOW_SIZE] == [0, WINDOW_SIZE];
    IdleTenantFaults([0], WINDOW_SIZE);
  }

  /** The same fault stated on the queue itself: an existing time-ordered
      queue whose newest recorded entry is WINDOW_SIZE or more old faults
      the threaded check, whatever clock reads filled it. */
  lemma StaleQueueFaults(s: seq<int>, now: int)
    requires Sorted(s) && s != [] && Expired(s[|s| - 1], now)
    ensures ThreadedOutcome(Some(s), now) == NullDereference
  {
    StaleQueueDrained(s, now, now);
  }
}
