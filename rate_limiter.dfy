/** The single-threaded rate limiter: the admission check on one tenant's
    linked queue, and the fixed table of per-tenant queues that the driver
    indexes by tenant identifier. The wall-clock read that the check
    records on admission is the parameter `recorded`; the `timestamp` the
    caller passes is the one the window is measured against. */
module RateLimiter {
  import opened SlidingWindow
  import opened LinkedQueue

  /** The eviction loop: dequeue the head while it is WINDOW_SIZE or more
      older than `timestamp`. */
  method EvictExpired(q: Queue?, timestamp: int)
    requires q != null ==> q.Valid()
    modifies if q != null then {q} else {}
    ensures q != null ==> q.Valid() && q.Repr <= old(q.Repr)
    ensures q != null ==> q.Contents == Evict(old(q.Contents), timestamp)
    ensures q != null ==> q.head == null || !Expired(q.head.data, timestamp)
  {
    while q != null && q.head != null && timestamp - q.head.data >= WINDOW_SIZE
      invariant q != null ==> q.Valid() && q.Repr <= old(q.Repr)
      invariant q != null ==> Evict(q.Contents, timestamp) == Evict(old(q.Contents), timestamp)
      decreases if q != null then |q.Contents| else 0
    {
      var _ := Dequeue(q);
    }
  }

  /** check_tenant_allowed: evict the expired entries, then admit (and
      record `recorded`) when the queue is absent or holds fewer than
      MAX_REQ entries; reject otherwise. `r` is the tenant's queue pointer
      afterwards. */
  method CheckTenantAllowed(q: Queue?, timestamp: int, recorded: int) returns (r: Queue, status: int)
    requires q != null ==> q.Valid()
    modifies if q != null then q.Repr else {}
    ensures r.Valid()
    ensures Model(r) == AfterCheck(old(Model(q)), timestamp, recorded)
    ensures status == if Admits(old(Model(q)), timestamp) then SUCCESS else FAILURE
    ensures q == null ==> fresh(r.Repr)
    ensures q != null ==> r == q && fresh(r.Repr - old(q.Repr))
  {
    EvictExpired(q, timestamp);
    if q == null || q.size < MAX_REQ {
      r := Enqueue(q, recorded);
      status := SUCCESS;
    } else {
      r := q;
      status := FAILURE;
    }
  }

  /** The table `tenant_queues[MAX_TENANTS]`, every slot initially null.
      `Slots` is its abstract view; distinct tenants own disjoint sets of
      objects. */
  class Registry {
    var tenantQueues: array<Queue?>

    ghost var Slots: seq<Option<seq<int>>>
    ghost var Repr: set<object>

    ghost predicate Valid()
      reads this, Repr
      ensures Valid() ==> this in Repr
    {
      this in Repr && tenantQueues in Repr &&
      tenantQueues.Length == MAX_TENANTS && |Slots| == MAX_TENANTS &&
      (forall i :: 0 <= i < MAX_TENANTS && tenantQueues[i] != null ==>
         tenantQueues[i] in Repr && tenantQueues[i].Repr <= Repr &&
         this !in tenantQueues[i].Repr && tenantQueues !in tenantQueues[i].Repr &&
         tenantQueues[i].Valid()) &&
      (forall i :: 0 <= i < MAX_TENANTS ==> Slots[i] == Model(tenantQueues[i])) &&
      (forall i, j :: 0 <= i < j < MAX_TENANTS && tenantQueues[i] != null && tenantQueues[j] != null ==>
         tenantQueues[i].Repr !! tenantQueues[j].Repr)
    }

    constructor ()
      ensures Valid() && fresh(Repr)
      ensures Slots == seq(MAX_TENANTS, _ => None)
    {
      tenantQueues := new Queue?[MAX_TENANTS](_ => null);
      Slots := seq(MAX_TENANTS, _ => None);
      Repr := {this, tenantQueues};
    }

    /** One request of the driver loop: run the check on slot `tenantId`
        and store the queue pointer back. Only that slot changes. */
    method Check(tenantId: nat, timestamp: int, recorded: int) returns (status: int)
      requires Valid() && tenantId < MAX_TENANTS
      modifies Repr
      ensures Valid() && fresh(Repr - old(Repr))
      ensures tenantQueues == old(tenantQueues)
      ensures Slots == old(Slots)[tenantId := AfterCheck(old(Slots[tenantId]), timestamp, recorded)]
      ensures status == if Admits(old(Slots[tenantId]), timestamp) then SUCCESS else FAILURE
      ensures forall j :: 0 <= j < MAX_TENANTS && j != tenantId ==> tenantQueues[j] == old(tenantQueues[j])
    {
      var q := tenantQueues[tenantId];
      ghost var before := Slots[tenantId];
      assert before == Model(q);
      var r;
      r, status := CheckTenantAllowed(q, timestamp, recorded);
      forall j | 0 <= j < MAX_TENANTS && j != tenantId && tenantQueues[j] != null
        ensures tenantQueues[j].Repr == old(tenantQueues[j].Repr)
        ensures tenantQueues[j].Valid() && Slots[j] == Model(tenantQueues[j])
        ensures tenantQueues[j].Repr !! r.Repr
      {
        var other := tenantQueues[j];
        assert q != null ==> old(other.Repr) !! old(q.Repr);
        assert unchanged(old(other.Repr));
      }
      SetSlot(tenantId, r);
    }

    /** Store the check's queue pointer back into slot `tenantId`, the
        write that passing `&tenant_queues[tenant_id]` performs. */
    method SetSlot(tenantId: nat, r: Queue)
      requires this in Repr && tenantQueues in Repr
      requires tenantQueues.Length == MAX_TENANTS && |Slots| == MAX_TENANTS && tenantId < MAX_TENANTS
      requires r.Valid() && this !in r.Repr && tenantQueues !in r.Repr
      requires forall i :: 0 <= i < MAX_TENANTS && i != tenantId && tenantQueues[i] != null ==>
         tenantQueues[i] in Repr && tenantQueues[i].Repr <= Repr &&
         this !in tenantQueues[i].Repr && tenantQueues !in tenantQueues[i].Repr &&
         tenantQueues[i].Valid() && tenantQueues[i].Repr !! r.Repr
      requires forall i :: 0 <= i < MAX_TENANTS && i != tenantId ==> Slots[i] == Model(tenantQueues[i])
      requires forall i, j :: 0 <= i < j < MAX_TENANTS && i != tenantId && j != tenantId && tenantQueues[i] != null && tenantQueues[j] != null ==>
         tenantQueues[i].Repr !! tenantQueues[j].Repr
      modifies this, tenantQueues
      ensures Valid()
      ensures Repr == old(Repr) + r.Repr && tenantQueues == old(tenantQueues)
      ensures Slots == old(Slots)[tenantId := Model(r)]
      ensures tenantQueues[..] == old(tenantQueues[..])[tenantId := r]
    {
      tenantQueues[tenantId] := r;
      Repr := Repr + r.Repr;
      Slots := Slots[tenantId := Model(r)];
    }

    /** The shutdown loop: destroy every slot's queue (absent ones
        included, which destroy_queue ignores). `freed[i]` lists the nodes
        released from slot `i`, head first. */
    method Shutdown() returns (ghost freed: seq<seq<Node>>)
      requires Valid()
      modifies Repr
      ensures tenantQueues == old(tenantQueues) && tenantQueues.Length == MAX_TENANTS
      ensures forall i :: 0 <= i < MAX_TENANTS ==> tenantQueues[i] == old(tenantQueues[i])
      ensures |freed| == MAX_TENANTS
      ensures forall i :: 0 <= i < MAX_TENANTS ==>
        freed[i] == if old(tenantQueues[i]) == null then [] else old(tenantQueues[i].Nodes)
      ensures forall i :: 0 <= i < MAX_TENANTS && tenantQueues[i] != null ==>
        tenantQueues[i].head == null && tenantQueues[i].tail == null
    {
      freed := [];
      for i := 0 to MAX_TENANTS
        invariant tenantQueues == old(tenantQueues) && Repr == old(Repr)
        invariant forall k :: 0 <= k < MAX_TENANTS ==> tenantQueues[k] == old(tenantQueues[k])
        invariant forall k :: 0 <= k < MAX_TENANTS && tenantQueues[k] != null ==> tenantQueues[k] in Repr
        invariant |freed| == i
        invariant forall k :: 0 <= k < i ==>
          freed[k] == if old(tenantQueues[k]) == null then [] else old(tenantQueues[k].Nodes)
        invariant forall k :: 0 <= k < i && tenantQueues[k] != null ==>
          tenantQueues[k].head == null && tenantQueues[k].tail == null
        invariant forall k :: i <= k < MAX_TENANTS && tenantQueues[k] != null ==>
          tenantQueues[k].Valid() && tenantQueues[k].Repr == old(tenantQueues[k].Repr) &&
          tenantQueues[k].Nodes == old(tenantQueues[k].Nodes)
        invariant forall j, k :: 0 <= j < k < MAX_TENANTS && tenantQueues[j] != null && tenantQueues[k] != null ==>
          old(tenantQueues[j].Repr) !! old(tenantQueues[k].Repr)
      {
        var nodes := DestroyQueue(tenantQueues[i]);
        freed := freed + [nodes];
      }
    }
  }
}
