/** What every run of the connection pool keeps: slots are conserved, no connection has two owners,
    and no wakeup is lost. */
module PoolSafety {
  import opened Wrappers
  import opened ConnectionPool

  // ---- who uses a slot, who owns a notification, who still waits for one

  predicate UsesSlot(q: Request, k: Key) {
    (q.phase.Connecting? || q.phase.Holding?) && q.phase.key == k
  }

  /** A notification is outstanding while its owner has neither taken a slot nor passed it on. */
  predicate OwnsNotification(q: Request, k: Key) {
    (q.phase.Suspended? && q.phase.slotNotified && q.phase.key == k) || q.notifiedOrigin == Some(k)
  }

  predicate IsWaiting(q: Request, k: Key) {
    q.phase.Suspended? && !q.phase.notified && q.phase.key == k
  }

  function Users(s: State, k: Key): set<RequestId> {
    set r | r in s.requests && UsesSlot(s.requests[r], k)
  }

  function Notified(s: State, k: Key): set<RequestId> {
    set r | r in s.requests && OwnsNotification(s.requests[r], k)
  }

  function Waiting(s: State, k: Key): set<RequestId> {
    set r | r in s.requests && IsWaiting(s.requests[r], k)
  }

  // ---- the invariant

  predicate Distinct<T(==)>(xs: seq<T>) {
    forall i, j :: 0 <= i < j < |xs| ==> xs[i] != xs[j]
  }

  predicate QueueSound(s: State, k: Key) {
    k in s.queues ==>
      && s.queues[k] != []
      && Distinct(s.queues[k])
      && forall r :: r in s.queues[k] ==>
           r in s.requests && s.requests[r].phase.Suspended? && s.requests[r].phase.key == k && !s.requests[r].phase.slotNotified
  }

  predicate RequestSound(s: State, r: RequestId)
    requires r in s.requests
  {
    var q := s.requests[r];
    && (q.notifiedOrigin.Some? ==> q.phase == Queueing(q.notifiedOrigin.value))
    && (q.phase.Suspended? && !q.phase.notified ==> q.phase.key in s.queues && r in s.queues[q.phase.key])
    && (q.phase.Suspended? && q.phase.slotNotified ==> q.phase.notified)
  }

  ghost predicate WaitersSound(s: State) {
    && (forall k :: QueueSound(s, k))
    && (forall r :: r in s.requests ==> RequestSound(s, r))
  }

  /** Slots are conserved: the count of an origin is its idle connections plus its users. */
  ghost predicate Conserved(limits: Limits, s: State, k: Key) {
    && s.Count(k) == |s.Idle(k)| + |Users(s, k)|
    && (limits.maxPerOrigin != 0 ==> s.Count(k) <= limits.maxPerOrigin)
    && |s.Idle(k)| <= limits.poolSize
  }

  predicate Holds(s: State, r: RequestId, c: ConnectionId) {
    r in s.requests && s.requests[r].phase.Holding? && s.requests[r].phase.connection == c
  }

  /** No connection is idle twice, leased twice, or idle and leased. */
  ghost predicate SingleOwner(s: State) {
    && (forall k :: Distinct(s.Idle(k)))
    && (forall k, c :: c in s.Idle(k) ==> c in s.created)
    && (forall k, l, c :: c in s.Idle(k) && c in s.Idle(l) ==> k == l)
    && (forall r, c :: Holds(s, r, c) ==> c in s.created)
    && (forall r, k, c :: Holds(s, r, c) ==> c !in s.Idle(k))
    && (forall r, q, c :: Holds(s, r, c) && Holds(s, q, c) ==> r == q)
  }

  /** If somebody waits for `k`, all but `slack` of the slots of `k` are used or promised. */
  ghost predicate Served(limits: Limits, s: State, k: Key, slack: nat) {
    limits.maxPerOrigin != 0 && Waiting(s, k) != {} ==>
      |Users(s, k)| + |Notified(s, k)| + slack >= limits.maxPerOrigin
  }

  ghost predicate Core(limits: Limits, s: State) {
    && WaitersSound(s)
    && (forall k :: Conserved(limits, s, k))
    && SingleOwner(s)
  }

  ghost predicate Inv(limits: Limits, s: State) {
    Core(limits, s) && forall k :: Served(limits, s, k, 0)
  }

  // ---- one request changes

  function Without(a: set<RequestId>, r: RequestId, keep: bool): set<RequestId> {
    if keep then a + {r} else a - {r}
  }

  lemma AfterUpdate(s: State, t: State, r: RequestId, q: Request, k: Key)
    requires t.requests == s.requests[r := q]
    ensures Users(t, k) == Without(Users(s, k), r, UsesSlot(q, k))
    ensures Notified(t, k) == Without(Notified(s, k), r, OwnsNotification(q, k))
    ensures Waiting(t, k) == Without(Waiting(s, k), r, IsWaiting(q, k))
  {}

  lemma AfterRemoval(s: State, t: State, r: RequestId, k: Key)
    requires t.requests == s.requests - {r}
    ensures Users(t, k) == Users(s, k) - {r}
    ensures Notified(t, k) == Notified(s, k) - {r}
    ensures Waiting(t, k) == Waiting(s, k) - {r}
  {}

  // ---- waking

  lemma {:induction false} PopWaiterSpec(s: State, queue: seq<RequestId>)
    ensures var (rest, chosen) := PopWaiter(s, queue);
            && |rest| <= |queue| && rest == queue[|queue| - |rest|..]
            && (chosen.Some? ==> |rest| < |queue| && queue[|queue| - |rest| - 1] == chosen.value && s.Wakeable(chosen.value))
            && (chosen.None? ==> rest == [] && forall r :: r in queue ==> !s.Wakeable(r))
            && forall i :: 0 <= i < |queue| - |rest| ==> s.Wakeable(queue[i]) ==> chosen == Some(queue[i])
  {
    if queue != [] && !s.Wakeable(queue[0]) {
      PopWaiterSpec(s, queue[1..]);
      var (rest, chosen) := PopWaiter(s, queue[1..]);
      assert PopWaiter(s, queue) == (rest, chosen);
      forall i | 0 <= i < |queue| - |rest| ensures s.Wakeable(queue[i]) ==> chosen == Some(queue[i]) {
        if i > 0 { assert queue[i] == queue[1..][i - 1]; }
      }
    }
  }

  /** Waking changes one request at most, and it picks somebody exactly when somebody waits. */
  lemma WakeSpec(s: State, k: Key) returns (chosen: Option<RequestId>)
    requires WaitersSound(s)
    ensures WaitersSound(Wake(s, k))
    ensures Wake(s, k) == s.(queues := Wake(s, k).queues, requests := Wake(s, k).requests)
    ensures chosen.None? ==> Waiting(s, k) == {} && Wake(s, k).requests == s.requests
    ensures chosen.Some? ==>
              && chosen.value in Waiting(s, k)
              && Wake(s, k).requests ==
                 s.requests[chosen.value := s.requests[chosen.value].(phase := Suspended(k, true, true))]
  {
    var t := Wake(s, k);
    assert QueueSound(s, k);
    if k !in s.queues {
      chosen := None;
      forall r | r in s.requests ensures !IsWaiting(s.requests[r], k) { assert RequestSound(s, r); }
      return;
    }
    var queue := s.queues[k];
    var rest := PopWaiter(s, queue).0;
    chosen := PopWaiter(s, queue).1;
    PopWaiterSpec(s, queue);
    if chosen.None? {
      forall r | r in s.requests ensures !IsWaiting(s.requests[r], k) {
        assert RequestSound(s, r);
        assert s.Wakeable(r) <==> s.requests[r].phase.Suspended? && !s.requests[r].phase.notified;
      }
    }
    forall l ensures QueueSound(t, l) {
      assert QueueSound(s, l);
      if l == k && l in t.queues {
        assert t.queues[l] == rest;
        if chosen.Some? {
          forall r | r in rest ensures r != chosen.value {}
        }
      }
    }
    forall r | r in t.requests ensures RequestSound(t, r) {
      assert RequestSound(s, r);
      var q := t.requests[r];
      if q.phase.Suspended? && !q.phase.notified && q.phase.key == k {
        assert s.Wakeable(r) && r in queue;
        var i :| 0 <= i < |queue| && queue[i] == r;
        assert chosen != Some(r);
        assert i >= |queue| - |rest|;
        assert rest[i - (|queue| - |rest|)] == r;
      }
    }
  }

  /** One more free slot than Served allows is repaired by one wakeup. */
  lemma WakeRestores(limits: Limits, s: State, k: Key)
    requires Core(limits, s)
    requires forall l :: l != k ==> Served(limits, s, l, 0)
    requires Served(limits, s, k, 1)
    ensures Inv(limits, Wake(s, k))
  {
    var chosen := WakeSpec(s, k);
    var t := Wake(s, k);
    if chosen.Some? {
      var r := chosen.value;
      assert RequestSound(s, r);
      forall l ensures Users(t, l) == Users(s, l) && Waiting(t, l) <= Waiting(s, l)
      ensures Notified(t, l) == if l == k then Notified(s, l) + {r} else Notified(s, l) {
        AfterUpdate(s, t, r, t.requests[r], l);
      }
      assert r !in Notified(s, k);
    } else {
      forall l ensures Users(t, l) == Users(s, l) && Waiting(t, l) == Waiting(s, l) && Notified(t, l) == Notified(s, l) {}
    }
    forall l ensures Conserved(limits, t, l) { assert Conserved(limits, s, l); assert t.Idle(l) == s.Idle(l); }
    forall l ensures Served(limits, t, l, 0) {
      assert Served(limits, s, l, if l == k then 1 else 0);
    }
    assert SingleOwner(t) by { SameOwners(s, t); }
  }

  lemma SameOwners(s: State, t: State)
    requires SingleOwner(s)
    requires s.created <= t.created
    requires forall k :: t.Idle(k) <= s.Idle(k)
    requires forall r, c :: Holds(t, r, c) ==> Holds(s, r, c)
    ensures SingleOwner(t)
  {
    forall k ensures Distinct(t.Idle(k)) { assert Distinct(s.Idle(k)); }
    forall k, c | c in t.Idle(k) ensures c in s.Idle(k) {}
  }

  // ---- giving a slot back

  /** The user of a slot of `k` is gone, but its slot is still counted. */
  ghost predicate Owed(limits: Limits, s: State, k: Key) {
    && WaitersSound(s)
    && SingleOwner(s)
    && s.Count(k) == |s.Idle(k)| + |Users(s, k)| + 1
    && (limits.maxPerOrigin != 0 ==> s.Count(k) <= limits.maxPerOrigin)
    && |s.Idle(k)| <= limits.poolSize
    && (forall l :: l != k ==> Conserved(limits, s, l) && Served(limits, s, l, 0))
    && Served(limits, s, k, 1)
  }

  lemma UserLeaves(limits: Limits, s: State, t: State, r: RequestId)
    requires Inv(limits, s) && r in s.requests
    requires s.requests[r].phase.Connecting? || s.requests[r].phase.Holding?
    requires t == s.(requests := s.requests[r := Request(Free, None)], open := t.open)
    ensures Owed(limits, t, s.requests[r].phase.key)
  {
    var k := s.requests[r].phase.key;
    assert RequestSound(s, r);
    forall l ensures Waiting(t, l) == Waiting(s, l) && Notified(t, l) == Notified(s, l)
    ensures Users(t, l) == if l == k then Users(s, l) - {r} else Users(s, l) {
      AfterUpdate(s, t, r, Request(Free, None), l);
    }
    assert r in Users(s, k);
    forall l ensures QueueSound(t, l) { assert QueueSound(s, l); }
    forall q | q in t.requests ensures RequestSound(t, q) { if q != r { assert RequestSound(s, q); } }
    SameOwners(s, t);
    forall l ensures l != k ==> Conserved(limits, t, l) && Served(limits, t, l, 0) {
      assert Conserved(limits, s, l) && Served(limits, s, l, 0);
    }
    assert Conserved(limits, s, k) && Served(limits, s, k, 0);
  }

  /** Erasing the pool entry of an origin whose count reaches zero never discards an idle connection. */
  lemma ErasedPoolIsEmpty(limits: Limits, s: State, k: Key)
    requires Owed(limits, s, k) && s.counts[k] == 1
    ensures s.Idle(k) == [] && Users(s, k) == {}
  {}

  lemma ReleaseSlotRestores(limits: Limits, s: State, k: Key)
    requires Owed(limits, s, k)
    ensures Inv(limits, ReleaseSlot(s, k))
  {
    var t := DropSlot(s, k);
    forall l ensures t.Idle(l) == s.Idle(l) { if l == k && s.counts[k] == 1 { ErasedPoolIsEmpty(limits, s, k); } }
    forall l ensures Users(t, l) == Users(s, l) && Waiting(t, l) == Waiting(s, l) && Notified(t, l) == Notified(s, l) {}
    forall l ensures Conserved(limits, t, l) { if l != k { assert Conserved(limits, s, l); } }
    forall l ensures QueueSound(t, l) { assert QueueSound(s, l); }
    forall q | q in t.requests ensures RequestSound(t, q) { assert RequestSound(s, q); }
    forall l | l != k ensures Served(limits, t, l, 0) { assert Served(limits, s, l, 0); }
    SameOwners(s, t);
    WakeRestores(limits, t, k);
  }

  /** The connection of the user that left becomes idle and takes over its slot. */
  lemma PoolingRestores(limits: Limits, s: State, t: State, k: Key, c: ConnectionId)
    requires Owed(limits, s, k) && |s.Idle(k)| < limits.poolSize
    requires c in s.created && (forall l :: c !in s.Idle(l)) && (forall r :: !Holds(s, r, c))
    requires t == s.(idle := s.idle[k := s.Idle(k) + [c]])
    ensures Inv(limits, Wake(t, k))
  {
    forall l ensures Users(t, l) == Users(s, l) && Waiting(t, l) == Waiting(s, l) && Notified(t, l) == Notified(s, l) {}
    forall l ensures t.Idle(l) == if l == k then s.Idle(k) + [c] else s.Idle(l) {}
    forall l ensures Conserved(limits, t, l) { if l != k { assert Conserved(limits, s, l); } }
    forall l ensures QueueSound(t, l) { assert QueueSound(s, l); }
    forall q | q in t.requests ensures RequestSound(t, q) { assert RequestSound(s, q); }
    forall l | l != k ensures Served(limits, t, l, 0) { assert Served(limits, s, l, 0); }
    PooledOwners(s, t, k, c);
    WakeRestores(limits, t, k);
  }

  lemma PooledOwners(s: State, t: State, k: Key, c: ConnectionId)
    requires SingleOwner(s)
    requires c in s.created && (forall l :: c !in s.Idle(l)) && (forall r :: !Holds(s, r, c))
    requires t == s.(idle := s.idle[k := s.Idle(k) + [c]])
    ensures SingleOwner(t)
  {
    assert forall l :: t.Idle(l) == if l == k then s.Idle(k) + [c] else s.Idle(l);
    forall l ensures Distinct(t.Idle(l)) { assert Distinct(s.Idle(l)); }
    assert forall r, d :: Holds(t, r, d) == Holds(s, r, d);
  }

  lemma ReleaseKeepsInv(limits: Limits, s: State, r: RequestId, reusable: bool)
    requires Inv(limits, s) && Enabled(s, Release(r, reusable))
    ensures Inv(limits, Next(limits, s, Release(r, reusable)))
  {
    var k, c := s.requests[r].phase.key, s.requests[r].phase.connection;
    assert Holds(s, r, c);
    if reusable && limits.keepAlive && c in s.open && |s.Idle(k)| < limits.poolSize {
      var free := s.(requests := s.requests[r := Request(Free, None)]);
      UserLeaves(limits, s, free, r);
      forall l ensures c !in free.Idle(l) { assert free.Idle(l) == s.Idle(l); }
      forall q ensures !Holds(free, q, c) { assert q != r && Holds(free, q, c) ==> Holds(s, q, c); }
      PoolingRestores(limits, free, free.(idle := s.idle[k := s.Idle(k) + [c]]), k, c);
    } else {
      var t := s.(requests := s.requests[r := Request(Free, None)], open := s.open - {c});
      UserLeaves(limits, s, t, r);
      ReleaseSlotRestores(limits, t, k);
    }
  }

  // ---- taking a slot

  lemma DropClosedKeepsInv(limits: Limits, s: State, k: Key)
    requires Inv(limits, s)
    ensures Inv(limits, DropClosed(s, k))
    ensures DropClosed(s, k).requests == s.requests && DropClosed(s, k).queues == s.queues
  {
    var t := DropClosed(s, k);
    assert Conserved(limits, s, k);
    forall l ensures Users(t, l) == Users(s, l) && Waiting(t, l) == Waiting(s, l) && Notified(t, l) == Notified(s, l) {}
    forall l ensures t.Idle(l) <= s.Idle(l) {}
    forall l ensures Conserved(limits, t, l) { assert Conserved(limits, s, l); }
    forall l ensures QueueSound(t, l) { assert QueueSound(s, l); }
    forall q | q in t.requests ensures RequestSound(t, q) { assert RequestSound(s, q); }
    forall l ensures Served(limits, t, l, 0) { assert Served(limits, s, l, 0); }
    SameOwners(s, t);
  }

  /** A queueing request becomes a user of `k`: the slot it takes outweighs the notification it drops. */
  lemma UserArrives(limits: Limits, s: State, t: State, r: RequestId, q: Request)
    requires Inv(limits, s) && r in s.requests && s.requests[r].phase.Queueing?
    requires q.notifiedOrigin == None && UsesSlot(q, s.requests[r].phase.key)
    requires t.requests == s.requests[r := q] && t.queues == s.queues
    ensures WaitersSound(t)
    ensures forall l :: Served(limits, t, l, 0)
    ensures forall l :: |Users(t, l)| == |Users(s, l)| + if l == s.requests[r].phase.key then 1 else 0
  {
    var k := s.requests[r].phase.key;
    assert RequestSound(s, r);
    forall l ensures |Users(t, l)| == |Users(s, l)| + if l == k then 1 else 0
    ensures Served(limits, t, l, 0) {
      AfterUpdate(s, t, r, q, l);
      assert r !in Users(s, l);
      assert Served(limits, s, l, 0);
      assert |Notified(t, l)| >= |Notified(s, l)| - if l == k then 1 else 0;
    }
    forall l ensures QueueSound(t, l) { assert QueueSound(s, l); }
    forall p | p in t.requests ensures RequestSound(t, p) { if p != r { assert RequestSound(s, p); } }
  }

  lemma SuspendedWaiters(s: State, r: RequestId, k: Key)
    requires WaitersSound(s) && r in s.requests && s.requests[r].phase == Queueing(k)
    ensures WaitersSound(Suspend(s, r, k))
  {
    var t := Suspend(s, r, k);
    assert RequestSound(s, r);
    forall l ensures QueueSound(t, l) {
      assert QueueSound(s, l);
      if k in s.queues { assert QueueSound(s, k); }
    }
    forall p | p in t.requests ensures RequestSound(t, p) { if p != r { assert RequestSound(s, p); } }
  }

  lemma SuspendKeepsInv(limits: Limits, s: State, r: RequestId)
    requires Inv(limits, s) && r in s.requests && s.requests[r].phase.Queueing?
    requires Full(limits, s, s.requests[r].phase.key)
    ensures Inv(limits, Suspend(s, r, s.requests[r].phase.key))
  {
    var k := s.requests[r].phase.key;
    var t := Suspend(s, r, k);
    assert RequestSound(s, r);
    SuspendedWaiters(s, r, k);
    SuspendedCounts(limits, s, r, k);
    forall l ensures t.Idle(l) == s.Idle(l) {}
    SameOwners(s, t);
    hide Conserved, Served, WaitersSound, SingleOwner;
  }

  /** Somebody waits only while every slot is used. */
  lemma SuspendedCounts(limits: Limits, s: State, r: RequestId, k: Key)
    requires Inv(limits, s) && r in s.requests && s.requests[r] == Request(Queueing(k), s.requests[r].notifiedOrigin)
    requires Full(limits, s, k)
    ensures forall l :: Conserved(limits, Suspend(s, r, k), l) && Served(limits, Suspend(s, r, k), l, 0)
  {
    hide WaitersSound, SingleOwner, Users, Waiting, Notified;
    var t := Suspend(s, r, k);
    assert Conserved(limits, s, k);
    forall l ensures Conserved(limits, t, l) && Served(limits, t, l, 0) {
      SuspendedSets(s, t, r, k, l);
      assert Conserved(limits, s, l) && Served(limits, s, l, 0);
      assert t.Idle(l) == s.Idle(l);
    }
  }

  lemma SuspendedSets(s: State, t: State, r: RequestId, k: Key, l: Key)
    requires r in s.requests && s.requests[r].phase == Queueing(k)
    requires t.requests == s.requests[r := Request(Suspended(k, false, false), None)]
    requires WaitersSound(s)
    ensures Users(t, l) == Users(s, l) && (l != k ==> Waiting(t, l) == Waiting(s, l) && Notified(t, l) == Notified(s, l))
  {
    hide QueueSound;
    assert RequestSound(s, r);
    AfterUpdate(s, t, r, Request(Suspended(k, false, false), None), l);
  }

  lemma AcquireKeepsInv(limits: Limits, s: State, r: RequestId)
    requires Inv(limits, s) && Enabled(s, Acquire(r))
    ensures Inv(limits, Next(limits, s, Acquire(r)))
  {
    var k := s.requests[r].phase.key;
    var d := DropClosed(s, k);
    DropClosedKeepsInv(limits, s, k);
    LeaseKeepsInv(limits, d, r, k);
  }

  lemma LeaseKeepsInv(limits: Limits, s: State, r: RequestId, k: Key)
    requires Inv(limits, s) && r in s.requests && s.requests[r].phase == Queueing(k)
    ensures Inv(limits, Lease(limits, s, r, k))
  {
    var t := Lease(limits, s, r, k);
    var idle := s.Idle(k);
    assert Conserved(limits, s, k);
    if idle != [] {
      var c := idle[|idle| - 1];
      UserArrives(limits, s, t, r, Request(Holding(k, c), None));
      forall l ensures Conserved(limits, t, l) { assert Conserved(limits, s, l); }
      LeasedOwners(s, t, r, k);
    } else if limits.maxPerOrigin == 0 || s.Count(k) < limits.maxPerOrigin {
      UserArrives(limits, s, t, r, Request(Connecting(k), None));
      forall l ensures Conserved(limits, t, l) { assert Conserved(limits, s, l); assert t.Idle(l) == s.Idle(l); }
      SameOwners(s, t);
    } else {
      SuspendKeepsInv(limits, s, r);
    }
  }

  lemma LeasedOwners(s: State, t: State, r: RequestId, k: Key)
    requires SingleOwner(s) && r in s.requests && s.Idle(k) != []
    requires var idle := s.Idle(k);
             t == s.(idle := s.idle[k := idle[..|idle| - 1]],
                     requests := s.requests[r := Request(Holding(k, idle[|idle| - 1]), None)])
    ensures SingleOwner(t)
  {
    var idle := s.Idle(k);
    var c := idle[|idle| - 1];
    assert c in s.Idle(k) && Distinct(idle);
    forall l ensures t.Idle(l) <= s.Idle(l) && Distinct(t.Idle(l)) && c !in t.Idle(l) { assert Distinct(s.Idle(l)); }
    forall q, d | Holds(t, q, d) ensures (q == r && d == c) || (q != r && Holds(s, q, d)) {}
  }

  // ---- steps that move no slot

  /** A request changes without touching queues, slots or who waits. */
  lemma QuietStep(limits: Limits, s: State, t: State, r: RequestId, q: Request)
    requires Inv(limits, s)
    requires t == s.(requests := s.requests[r := q], open := t.open, created := t.created) && s.created <= t.created
    requires RequestSound(t, r)
    requires forall k :: UsesSlot(q, k) == (r in Users(s, k)) && OwnsNotification(q, k) == (r in Notified(s, k))
    requires forall k :: IsWaiting(q, k) ==> r in Waiting(s, k)
    requires forall k :: k in s.queues && r in s.queues[k] ==> q.phase.Suspended? && q.phase.key == k && !q.phase.slotNotified
    requires q.phase.Holding? ==> q.phase.connection in t.created && q.phase.connection !in s.created
    ensures Inv(limits, t)
  {
    forall l ensures Users(t, l) == Users(s, l) && Notified(t, l) == Notified(s, l) && Waiting(t, l) <= Waiting(s, l) {
      AfterUpdate(s, t, r, q, l);
    }
    forall l ensures Conserved(limits, t, l) { assert Conserved(limits, s, l); assert t.Idle(l) == s.Idle(l); }
    forall l ensures Served(limits, t, l, 0) { assert Served(limits, s, l, 0); }
    forall l ensures QueueSound(t, l) { assert QueueSound(s, l); }
    forall p | p in t.requests ensures RequestSound(t, p) { if p != r { assert RequestSound(s, p); } }
    forall l ensures Distinct(t.Idle(l)) { assert Distinct(s.Idle(l)); }
    forall p, c | Holds(t, p, c) ensures (p != r && Holds(s, p, c)) || (p == r && c !in s.created && c in t.created) {}
    assert forall l :: t.Idle(l) == s.Idle(l);
  }

  lemma {:induction false} UnqueueSpec(queue: seq<RequestId>, r: RequestId)
    requires Distinct(queue)
    ensures Distinct(Unqueue(queue, r))
    ensures forall q :: q in Unqueue(queue, r) <==> q in queue && q != r
  {
    if queue != [] {
      assert queue == [queue[0]] + queue[1..];
      if queue[0] == r {
        assert forall q :: q in queue <==> q == r || q in queue[1..];
      } else {
        var rest := queue[1..];
        UnqueueSpec(rest, r);
        forall j | 0 <= j < |rest| ensures rest[j] != queue[0] { assert rest[j] == queue[j + 1]; }
        assert queue[0] !in Unqueue(rest, r);
        assert forall q :: q in queue <==> q == queue[0] || q in queue[1..];
      }
    }
  }

  lemma ResumeKeepsInv(limits: Limits, s: State, r: RequestId)
    requires Inv(limits, s) && Enabled(s, Resume(r))
    ensures Inv(limits, Next(limits, s, Resume(r)))
  {
    var k := s.requests[r].phase.key;
    var t := ResumeWaiter(s, r);
    assert RequestSound(s, r);
    ResumedWaiters(s, r);
    forall l ensures Users(t, l) == Users(s, l) && Notified(t, l) == Notified(s, l) && Waiting(t, l) <= Waiting(s, l) {
      AfterUpdate(s, t, r, t.requests[r], l);
    }
    hide WaitersSound, QueueSound, RequestSound, Users, Waiting, Notified;
    forall l ensures Conserved(limits, t, l) { assert Conserved(limits, s, l); assert t.Idle(l) == s.Idle(l); }
    forall l ensures Served(limits, t, l, 0) { assert Served(limits, s, l, 0); }
    SameOwners(s, t);
  }

  lemma ResumedWaiters(s: State, r: RequestId)
    requires WaitersSound(s) && Enabled(s, Resume(r))
    ensures WaitersSound(ResumeWaiter(s, r))
  {
    var k := s.requests[r].phase.key;
    var t := ResumeWaiter(s, r);
    assert RequestSound(s, r);
    assert QueueSound(s, k);
    if k in s.queues { UnqueueSpec(s.queues[k], r); }
    forall l ensures QueueSound(t, l) { assert QueueSound(s, l); }
    forall p | p in t.requests ensures RequestSound(t, p) { if p != r { assert RequestSound(s, p); } }
  }

  function Owing(note: Option<Key>, k: Key): nat {
    if note == Some(k) then 1 else 0
  }

  lemma ExitKeepsInv(limits: Limits, s: State, r: RequestId)
    requires Inv(limits, s) && Enabled(s, Exit(r))
    ensures Inv(limits, Next(limits, s, Exit(r)))
  {
    var t := s.(requests := s.requests - {r});
    var note := s.requests[r].notifiedOrigin;
    assert RequestSound(s, r);
    forall l ensures Users(t, l) == Users(s, l) && Waiting(t, l) == Waiting(s, l)
    ensures Notified(t, l) == if note == Some(l) then Notified(s, l) - {r} else Notified(s, l) {
      AfterRemoval(s, t, r, l);
    }
    forall l ensures Conserved(limits, t, l) { assert Conserved(limits, s, l); assert t.Idle(l) == s.Idle(l); }
    forall l ensures Served(limits, t, l, Owing(note, l)) { assert Served(limits, s, l, 0); }
    forall l ensures QueueSound(t, l) { assert QueueSound(s, l); }
    forall p | p in t.requests ensures RequestSound(t, p) { assert RequestSound(s, p); }
    SameOwners(s, t);
    forall l ensures note != Some(l) ==> Served(limits, t, l, 0) { assert Served(limits, t, l, Owing(note, l)); }
    if note.Some? {
      assert Served(limits, t, note.value, Owing(note, note.value));
      WakeRestores(limits, t, note.value);
    }
  }

  lemma QuietActionsKeepInv(limits: Limits, s: State, a: Action)
    requires Inv(limits, s) && Enabled(s, a) && (a.Begin? || a.Seek? || a.Nudge? || a.Connected?)
    ensures Inv(limits, Next(limits, s, a))
  {
    var t := Next(limits, s, a);
    var r := a.request;
    if r in s.requests { assert RequestSound(s, r); }
    forall k | k in s.queues && r in s.queues[k]
    ensures r in s.requests && s.requests[r].phase.Suspended? && s.requests[r].phase.key == k && !s.requests[r].phase.slotNotified {
      assert QueueSound(s, k);
    }
    QuietStep(limits, s, t, r, t.requests[r]);
  }

  lemma DieKeepsInv(limits: Limits, s: State, c: ConnectionId)
    requires Inv(limits, s)
    ensures Inv(limits, Next(limits, s, Die(c)))
  {
    var t := Next(limits, s, Die(c));
    forall l ensures Users(t, l) == Users(s, l) && Notified(t, l) == Notified(s, l) && Waiting(t, l) == Waiting(s, l) {}
    forall l ensures Conserved(limits, t, l) { assert Conserved(limits, s, l); assert t.Idle(l) == s.Idle(l); }
    forall l ensures Served(limits, t, l, 0) { assert Served(limits, s, l, 0); }
    forall l ensures QueueSound(t, l) { assert QueueSound(s, l); }
    forall p | p in t.requests ensures RequestSound(t, p) { assert RequestSound(s, p); }
    SameOwners(s, t);
  }

  /** Every step keeps the invariant. */
  lemma StepKeepsInv(limits: Limits, s: State, a: Action)
    requires Inv(limits, s) && Enabled(s, a)
    ensures Inv(limits, Next(limits, s, a))
  {
    match a
    case Begin(_) => QuietActionsKeepInv(limits, s, a);
    case Seek(_, _) => QuietActionsKeepInv(limits, s, a);
    case Nudge(_) => QuietActionsKeepInv(limits, s, a);
    case Connected(_, _) => QuietActionsKeepInv(limits, s, a);
    case Gate(r) => if Full(limits, s, s.requests[r].phase.key) { SuspendKeepsInv(limits, s, r); }
    case Acquire(r) => AcquireKeepsInv(limits, s, r);
    case Resume(r) => ResumeKeepsInv(limits, s, r);
    case ConnectFailed(r) =>
      UserLeaves(limits, s, s.(requests := s.requests[r := Request(Free, None)]), r);
      ReleaseSlotRestores(limits, s.(requests := s.requests[r := Request(Free, None)]), s.requests[r].phase.key);
    case Release(r, reusable) => ReleaseKeepsInv(limits, s, r, reusable);
    case Exit(r) => ExitKeepsInv(limits, s, r);
    case Die(c) => DieKeepsInv(limits, s, c);
  }

  // ---- every run

  predicate IsRun(limits: Limits, states: seq<State>, actions: seq<Action>) {
    && |states| == |actions| + 1
    && states[0] == InitialState
    && forall i :: 0 <= i < |actions| ==> Enabled(states[i], actions[i]) && states[i + 1] == Next(limits, states[i], actions[i])
  }

  /** Any number of requests, origins, cancellations, deadlines and dying connections, in any order. */
  lemma {:induction false} EveryStateIsSound(limits: Limits, states: seq<State>, actions: seq<Action>, i: nat)
    requires IsRun(limits, states, actions) && i < |states|
    ensures Inv(limits, states[i])
    decreases i
  {
    if i == 0 {
      assert forall k :: Users(InitialState, k) == {} && Waiting(InitialState, k) == {};
    } else {
      EveryStateIsSound(limits, states, actions, i - 1);
      StepKeepsInv(limits, states[i - 1], actions[i - 1]);
    }
  }

  /** Conservation: count = idle + leased + connecting, within both limits; no connection has two owners. */
  lemma SlotsAreConserved(limits: Limits, states: seq<State>, actions: seq<Action>, i: nat, k: Key)
    requires IsRun(limits, states, actions) && i < |states|
    ensures var s := states[i];
            && s.Count(k) == |s.Idle(k)| + |Users(s, k)|
            && (limits.maxPerOrigin != 0 ==> s.Count(k) <= limits.maxPerOrigin)
            && |s.Idle(k)| <= limits.poolSize
            && SingleOwner(s)
  {
    EveryStateIsSound(limits, states, actions, i);
    assert Conserved(limits, states[i], k);
  }

  /** No lost wakeup: while somebody waits un-notified, free capacity (unused slots plus idle connections)
      is covered by outstanding notifications. */
  lemma NoLostWakeup(limits: Limits, states: seq<State>, actions: seq<Action>, i: nat, k: Key)
    requires IsRun(limits, states, actions) && i < |states| && limits.maxPerOrigin != 0
    requires Waiting(states[i], k) != {}
    ensures limits.maxPerOrigin - states[i].Count(k) + |states[i].Idle(k)| <= |Notified(states[i], k)|
  {
    EveryStateIsSound(limits, states, actions, i);
    assert Conserved(limits, states[i], k) && Served(limits, states[i], k, 0);
  }

  /** A waiter that nobody has notified is always in the queue of its origin, where a wakeup finds it. */
  lemma WaiterIsQueued(limits: Limits, states: seq<State>, actions: seq<Action>, i: nat, k: Key, r: RequestId)
    requires IsRun(limits, states, actions) && i < |states| && r in Waiting(states[i], k)
    ensures k in states[i].queues && r in states[i].queues[k]
  {
    EveryStateIsSound(limits, states, actions, i);
    assert RequestSound(states[i], r);
  }

  /** Nobody is left behind: once every other request of an origin has finished, was cancelled or is notified
      and gone, no request of that origin still waits for a notification. */
  lemma NobodyIsStranded(limits: Limits, states: seq<State>, actions: seq<Action>, i: nat, k: Key)
    requires IsRun(limits, states, actions) && i < |states| && limits.maxPerOrigin != 0
    requires forall r :: r in states[i].requests ==>
               states[i].requests[r].phase.Free? || states[i].requests[r].phase.key != k || r in Waiting(states[i], k)
    ensures Waiting(states[i], k) == {}
  {
    var s := states[i];
    EveryStateIsSound(limits, states, actions, i);
    forall r | r in s.requests ensures !UsesSlot(s.requests[r], k) && !OwnsNotification(s.requests[r], k) {
      assert RequestSound(s, r);
    }
    assert Users(s, k) == {} && Notified(s, k) == {};
    assert Served(limits, s, k, 0);
  }
}
