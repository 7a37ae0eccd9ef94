# Sliding-window rate limiter, modelled in Dafny

This project models the per-tenant sliding-window rate limiter of
`rate-limiter.c` (single-threaded) and `rate-limiter-mt.c` (threaded). Each
tenant owns a singly linked FIFO of request timestamps. A check at
`timestamp` first dequeues every head entry that is `WINDOW_SIZE` (10000 ms)
or more older than `timestamp`. It then admits the request when the tenant
has no queue yet or fewer than `MAX_REQ` (10) entries remain, and enqueues
the time read from the clock at that moment. Otherwise it rejects the
request and leaves the queue alone. Tenants live in a fixed table of
`MAX_TENANTS` (100) queue pointers, all null at start.

Modules:

- `SlidingWindow` (`window.dfy`) holds the constants and the admission rule
  on abstract queue contents. A slot is `None` while no queue has been
  allocated and `Some(s)` afterwards, `s` running from head to tail.
  `Evict` is the eviction loop and `Admits` the capacity test. `AfterCheck`
  is the slot after one check, and `StateAfter`/`AdmittedTimes` replay a
  whole list of requests. `LiveAt`, the entries not yet expired at
  `now` (newer than `now - WINDOW_SIZE`), is the reference that eviction is compared
  against.
- `LinkedQueue` (`linked_queue.dfy`) holds the `Node` and `Queue` classes
  with the source's `head`, `tail`, `size` and `next` pointers. Ghost
  `Contents`, `Nodes` and `Repr` give the abstract view, and `Valid()` is the
  object invariant. Allocation, `initialize_queue`, `enqueue`, `dequeue` and
  `destroy_queue` are methods that rewrite those pointers in place.
  `rate-limiter-mt.c` repeats `allocate_node`, `initialize_queue`, `dequeue`
  and `destroy_queue` word for word (rate-limiter-mt.c:54-98, 116-139), so
  they are modelled once here.
- `RateLimiter` (`rate_limiter.dfy`) holds the eviction loop,
  `check_tenant_allowed`, and the tenant table of `main` as the `Registry`
  class.
- `RateLimiterMt` (`rate_limiter_mt.dfy`) holds the threaded `enqueue` and
  `check_allowed`, with the mutex calls removed. The threaded `enqueue`
  writes `tail->next` without testing for an empty queue, so the model gives
  it the precondition `tail != null`. `check_allowed` reports
  `NullDereference` at the one point where it cannot meet that
  precondition.

Three facts about the code shape the model:

- The check enqueues a fresh `get_current_time_ms()` read, not its
  `timestamp` argument (rate-limiter.c:162, rate-limiter-mt.c:163). The model
  takes that read as a second parameter, `recorded`.
- The threaded copy handles an allocated queue that eviction drained
  differently from an absent one: it allocates a new queue for the absent
  one but writes through the null tail of the drained one. That is the
  finding below.
- `main` indexes `tenant_queues` without a bounds check
  (rate-limiter.c:191-192), so `Registry.Check` requires
  `tenantId < MAX_TENANTS`.

## Model

| member | source | states |
|---|---|---|
| `LinkedQueue.Node.constructor` | rate-limiter.c:53-63 | a new node holds `data` and has a null `next` |
| `LinkedQueue.Queue.Initialize` | rate-limiter.c:65-78 | a new valid queue with one node holding `data`: `head == tail`, size 1, contents `[data]` |
| `LinkedQueue.Enqueue` | rate-limiter.c:99-118 | an absent queue becomes a fresh queue holding only `data`. An existing queue gets `data` appended at the tail and `size` grows by exactly 1, also after it was drained to zero nodes, when `head` becomes the new node. `size` equals the node count afterwards |
| `LinkedQueue.Dequeue` | rate-limiter.c:120-143 | returns -1 and changes nothing on an absent or empty queue. Otherwise returns the old head value, leaves the remaining contents in order, decrements `size`, and nulls `tail` exactly when the queue becomes empty. The queue's footprint does not grow |
| `LinkedQueue.DestroyQueue` | rate-limiter.c:80-97 | does nothing to an absent queue. Otherwise walks and releases every node from head to tail in order, then clears both ends |
| `RateLimiter.EvictExpired` | rate-limiter.c:158-160 | the queue afterwards is `Evict` of its old contents and stays valid. It is absent, empty, or has a head younger than `WINDOW_SIZE` |
| `RateLimiter.CheckTenantAllowed` | rate-limiter.c:155-167 | the new slot is `AfterCheck(old slot, timestamp, recorded)`. The status is `SUCCESS` exactly when the slot was absent or fewer than `MAX_REQ` entries survived eviction, else `FAILURE` |
| `RateLimiter.Registry.constructor` | rate-limiter.c:178 | a table of `MAX_TENANTS` slots, all absent |
| `RateLimiter.Registry.Check` | rate-limiter.c:191-192 | slot `tenantId` becomes `AfterCheck` of its old value and the status is that slot's decision. Every other slot keeps its queue pointer and its contents; the table array is the same object and stays valid |
| `RateLimiter.Registry.SetSlot` | rate-limiter.c:192 | storing the check's queue pointer back into its slot changes only that slot's abstract value |
| `RateLimiter.Registry.Shutdown` | rate-limiter.c:208-210 | every cell of the table keeps its queue pointer. The queue found in each cell is walked by `destroy_queue`: the ghost result lists exactly that queue's nodes, head first (nothing for an empty cell), and the queue is left with both ends null |
| `SlidingWindow.EvictShape` | rate-limiter.c:158-160 | eviction keeps a suffix of the queue. Every dropped entry is `WINDOW_SIZE` or more old; an entry exactly `WINDOW_SIZE` old is dropped. The first kept entry is younger than `WINDOW_SIZE` |
| `SlidingWindow.EvictUnique` | rate-limiter.c:158-160 | the suffix that starts at the first unexpired entry is the only possible result of eviction |
| `SlidingWindow.EvictIdempotent` | rate-limiter.c:158-160 | running eviction again at the same time removes nothing more |
| `SlidingWindow.EvictSortedIsLive` | rate-limiter.c:158-160 | on a time-ordered queue, head-only eviction removes exactly the expired entries, so it keeps exactly the entries not yet expired at that time |
| `SlidingWindow.CheckKeepsBound` | rate-limiter.c:161-166 | a slot with at most `MAX_REQ` entries still has at most `MAX_REQ` after a check, and at least one |
| `SlidingWindow.RejectChangesNothing` | rate-limiter.c:158-166 | when a slot holding at most `MAX_REQ` entries is rejected, nothing was evicted and nothing appended |
| `SlidingWindow.RejectIdempotent` | rate-limiter.c:158-166 | a rejected request repeated at the same timestamp is rejected again and leaves the slot unchanged |
| `SlidingWindow.CheckKeepsSorted` | rate-limiter.c:158-166 | a time-ordered queue stays time-ordered when the recorded time is not older than its tail. Its head timestamp never moves back |
| `SlidingWindow.SameInstantAdmitted` | rate-limiter.c:155-167 | with fewer than `MAX_REQ` requests at instant t, another request at t is admitted and appended |
| `SlidingWindow.SameInstantRejected` | rate-limiter.c:161-166 | after `MAX_REQ` requests at instant t, the next one at t is rejected |
| `SlidingWindow.QuotaExpiresAtBoundary` | rate-limiter.c:158-162 | a full quota taken at t0 is evicted entirely at exactly t0 + `WINDOW_SIZE`, which admits the request. One millisecond earlier, the request is rejected |
| `SlidingWindow.TraceState` | rate-limiter.c:155-167 | for time-ordered requests that record their own time, the queue holds exactly the admitted times inside the window ending at the latest request, and never more than `MAX_REQ` |
| `SlidingWindow.WindowQuota` | rate-limiter.c:155-167 | for time-ordered requests, at most `MAX_REQ` admitted requests lie in the window `(t - WINDOW_SIZE, t]` ending at any request time t |
| `SlidingWindow.IdleTenantReadmitted` | rate-limiter.c:155-167 | in a trace where each admission records its own request time, a tenant whose newest recorded entry is `WINDOW_SIZE` or more old has its queue drained to empty by eviction. It is admitted, and the queue then holds only the new request |
| `SlidingWindow.EvictAllExpired` | rate-limiter.c:158-160 | a queue whose every entry is expired is drained completely |
| `SlidingWindow.StaleQueueDrained` | rate-limiter.c:155-167 | for any time-ordered queue, whatever clock reads filled it: when its newest recorded entry is `WINDOW_SIZE` or more old, eviction drains it, the request is admitted, and the queue then holds only the new clock read |
| `RateLimiterMt.EnqueueThreaded` | rate-limiter-mt.c:100-114 | requires a non-null `tail` on an existing queue. An absent queue becomes a one-entry queue of size 1; an existing one gets `data` linked after its tail and `size` incremented |
| `RateLimiterMt.CheckAllowed` | rate-limiter-mt.c:151-173 | the outcome is `ThreadedOutcome` of the old slot. Without a fault, the slot becomes `AfterCheck` of its old value. On a fault, the queue is the drained one with a null tail |
| `RateLimiterMt.FaultIffDrained` | rate-limiter-mt.c:159-163 | the threaded check reaches `enqueue` with a null tail exactly when an existing queue has nothing left after eviction |
| `RateLimiterMt.AgreesUnlessFault` | rate-limiter-mt.c:162-167 | without that fault, the threaded check admits exactly when the single-threaded rule does |
| `RateLimiterMt.RunMatchesSingleThreaded` | rate-limiter-mt.c:151-173 | until it faults, a run of the threaded copy is in the same state as the single-threaded copy |
| `RateLimiterMt.IdleTenantFaults` | rate-limiter-mt.c:159-163 | in a trace where each admission records its own request time, a tenant whose newest recorded entry is `WINDOW_SIZE` or more old makes the threaded copy dereference a null tail on its next request |
| `RateLimiterMt.StaleQueueFaults` | rate-limiter-mt.c:159-163 | for any time-ordered queue, whatever clock reads filled it: when its newest recorded entry is `WINDOW_SIZE` or more old, the threaded check dereferences a null tail |
| `RateLimiterMt.SecondRequestAfterIdleWindow` | rate-limiter-mt.c:109 | a first admission that records 0, then a request at `WINDOW_SIZE`, crash the threaded copy. The single-threaded copy admits the second request and keeps only it |

## Findings

| source | as written | input that shows it | evidently intended | confidence | as-written member | corrected member |
|---|---|---|---|---|---|---|
| rate-limiter-mt.c:109 | `enqueue` links the new node through `(*q)->tail->next` without testing for an empty queue. `dequeue` nulls `tail` when the last node leaves (rate-limiter-mt.c:130-131). So once eviction in `check_allowed` drains an existing queue, the admit branch dereferences NULL | a tenant with an allocated queue whose newest recorded clock read is 10000 ms or more older than the next request's timestamp, e.g. one entry recorded at 0 and a request at 10000 | link the node as the new head when the queue is empty, as rate-limiter.c:108-112 does | high, not executed | `RateLimiterMt.StaleQueueFaults` | `SlidingWindow.StaleQueueDrained` |

The corrected behaviour is the single-threaded `enqueue`: `LinkedQueue.Enqueue`
shows that appending to a drained queue works, and
`SlidingWindow.StaleQueueDrained` shows that the stale tenant is then
admitted with a one-entry queue. `RateLimiterMt.SecondRequestAfterIdleWindow`
is the shortest concrete run that crashes.

## Left out

- Mutex lock, unlock and destroy, `client_thread`, and thread creation and joining (rate-limiter-mt.c:157, 169-170, 175-213, 221-232) are concurrency. So are the uninitialised `qlock` and the unlock without a lock on first creation. The `qlock` field is not modelled.
- The threaded table of rate-limiter-mt.c:218 is the same fixed array of queue pointers as `Registry`. Its only caller is `client_thread`, so `check_allowed` is modelled on one queue and not wired into `Registry`.
- `get_current_time_ms` is I/O (a clock read). Its value is the `recorded` parameter, and the caller's `timestamp` is a parameter too.
- `printf`, `usleep`, `rand`/`srand`, the DEBUG dumps and the round-robin tenant choice of the driver loop are test-harness code and I/O.
- Allocation always succeeds. The `malloc` failure paths are left out: the half-built queue of `initialize_queue` and the ignored `FAILURE` return of `enqueue` in the check.
- LinkedQueue.DestroyQueue: freeing has no observable effect in Dafny. The contract says which nodes the walk releases, in order, and that both ends are cleared, but not that the memory or the queue header is freed.
- LinkedQueue.Dequeue: `free(p)` is modelled only as dropping the head node from the queue's footprint `Repr`; the contract promises the footprint does not grow.
- LinkedQueue.Queue.Initialize: `size` is an unbounded `nat`. The source's `unsigned int` would wrap after 2^32 - 1 entries, which the check never reaches (it keeps at most `MAX_REQ`).
- SlidingWindow.TraceState, SlidingWindow.WindowQuota, SlidingWindow.IdleTenantReadmitted, RateLimiterMt.IdleTenantFaults, RateLimiterMt.SecondRequestAfterIdleWindow: every admission records its own request time (`recorded == timestamp`). `main` records a later clock read (rate-limiter.c:185, 162), so the quota is proved for the recorded times only in that simplified trace; single checks (`CheckKeepsBound`, `CheckKeepsSorted`, `StaleQueueDrained`, `StaleQueueFaults`) allow any `recorded`. If a read falls even 1 ms after its request, an entry survives a request exactly `WINDOW_SIZE` after that request, so the idle-tenant lemmas are stated for the recorded entry, not for the request.
- RateLimiter.EvictExpired: timestamps are unbounded integers. Overflow of the C `long` subtraction `timestamp - head` is not modelled.
- RateLimiter.Registry.Check: a tenant identifier outside the table is undefined behaviour in the source, so it is a precondition here.
- `dequeue` returns -1 both for "empty" and for a stored timestamp of -1. The model keeps that ambiguity: the contract states when -1 means "empty".
