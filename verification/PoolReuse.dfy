/** What each step of the connection pool does to slots, idle connections and the request that takes it: connections are
    reused whenever they can be, and a slot is given back whenever they cannot. */
module PoolReuse {
  import opened Wrappers
  import opened ConnectionPool
  import opened PoolSafety

  /** All requests but one are as before, except that a waiter of `k` may have been notified. */
  ghost predicate OthersStay(s: State, t: State, r: RequestId, k: Key) {
    && t.requests.Keys - {r} == s.requests.Keys - {r}
    && forall q :: q in s.requests && q in t.requests && q != r ==>
         || t.requests[q] == s.requests[q]
         || (q in Waiting(s, k) && t.requests[q].phase == Suspended(k, true, true))
  }

  /** Another origin keeps its slots and its idle connections. */
  ghost predicate OriginsStay(s: State, t: State, k: Key) {
    forall l :: l != k ==> t.Count(l) == s.Count(l) && t.Idle(l) == s.Idle(l)
  }

  // ---- giving slots and connections back

  lemma WakeKeeps(s: State, k: Key, r: RequestId)
    requires WaitersSound(s) && r !in Waiting(s, k)
    ensures var t := Wake(s, k);
            && OthersStay(s, t, r, k) && (r in t.requests <==> r in s.requests) && (r in s.requests ==> t.requests[r] == s.requests[r])
            && t.open == s.open && t.counts == s.counts && t.idle == s.idle && t.created == s.created
  {
    var chosen := WakeSpec(s, k);
  }

  /** `r` has come to rest, and then somebody may have been woken. */
  lemma OthersAfter(s: State, t: State, u: State, r: RequestId, k: Key)
    requires t.requests == s.requests[r := Request(Free, None)] && OthersStay(t, u, r, k)
    ensures OthersStay(s, u, r, k)
  {
    forall q | q in Waiting(t, k) ensures q in Waiting(s, k) {}
  }

  lemma DroppedSlot(s: State, k: Key)
    requires s.Count(k) > 0 && (s.Count(k) == 1 ==> s.Idle(k) == [])
    ensures var t := DropSlot(s, k);
            && t.Count(k) == s.Count(k) - 1 && t.Idle(k) == s.Idle(k) && OriginsStay(s, t, k)
            && t == s.(counts := t.counts, idle := t.idle)
  {}

  /** A user of `k` that comes to rest and gives its slot back. */
  lemma SlotIsReturned(limits: Limits, s: State, t: State, r: RequestId)
    requires Inv(limits, s) && r in s.requests && (s.requests[r].phase.Connecting? || s.requests[r].phase.Holding?)
    requires t == s.(requests := s.requests[r := Request(Free, None)], open := t.open)
    ensures var k, u := s.requests[r].phase.key, ReleaseSlot(t, s.requests[r].phase.key);
            && u.Count(k) == s.Count(k) - 1 && u.Idle(k) == s.Idle(k) && OriginsStay(s, u, k) && u.open == t.open
            && r in u.requests && u.requests[r] == Request(Free, None) && OthersStay(s, u, r, k)
  {
    var k := s.requests[r].phase.key;
    UserLeaves(limits, s, t, r);
    if t.Count(k) == 1 { ErasedPoolIsEmpty(limits, t, k); }
    DroppedSlot(t, k);
    var d := DropSlot(t, k);
    assert WaitersSound(d) by { SameWaiters(t, d); }
    WakeKeeps(d, k, r);
    OthersAfter(s, d, Wake(d, k), r, k);
    hide WaitersSound, Waiting, OthersStay, Wake, DropSlot, Inv, Owed;
    assert OriginsStay(s, Wake(d, k), k);
  }

  lemma SameWaiters(s: State, t: State)
    requires WaitersSound(s) && t.queues == s.queues && t.requests == s.requests
    ensures WaitersSound(t)
  {
    forall l ensures QueueSound(t, l) { assert QueueSound(s, l); }
    forall q | q in t.requests ensures RequestSound(t, q) { assert RequestSound(s, q); }
  }

  /** A lease that ends: the connection becomes the last idle one of its origin exactly when it may be used again and there
      is room. Otherwise it is closed, is idle nowhere, and its slot is given back. */
  lemma ReleaseReusesOrCloses(limits: Limits, s: State, r: RequestId, reusable: bool)
    requires Inv(limits, s) && Enabled(s, Release(r, reusable))
    ensures var k, c, t := s.requests[r].phase.key, s.requests[r].phase.connection, Next(limits, s, Release(r, reusable));
            var pooled := reusable && limits.keepAlive && c in s.open && |s.Idle(k)| < limits.poolSize;
            && (pooled <==> c in t.Idle(k)) && (pooled <==> c in t.open)
            && (pooled ==> t.Idle(k) == s.Idle(k) + [c] && t.Count(k) == s.Count(k) && t.open == s.open)
            && (!pooled ==> t.Idle(k) == s.Idle(k) && t.Count(k) == s.Count(k) - 1 && t.open == s.open - {c})
            && (!pooled ==> forall l :: c !in t.Idle(l))
            && r in t.requests && t.requests[r] == Request(Free, None) && OthersStay(s, t, r, k) && OriginsStay(s, t, k)
  {
    var k, c := s.requests[r].phase.key, s.requests[r].phase.connection;
    assert Holds(s, r, c);
    assert c !in s.Idle(k);
    if reusable && limits.keepAlive && c in s.open && |s.Idle(k)| < limits.poolSize {
      var free := s.(requests := s.requests[r := Request(Free, None)]);
      var t := free.(idle := s.idle[k := s.Idle(k) + [c]]);
      UserLeaves(limits, s, free, r);
      SameWaiters(free, t);
      WakeKeeps(t, k, r);
      OthersAfter(s, t, Wake(t, k), r, k);
      hide WaitersSound, Waiting, OthersStay, Wake, Inv, Owed;
    } else {
      var t := s.(requests := s.requests[r := Request(Free, None)], open := s.open - {c});
      SlotIsReturned(limits, s, t, r);
      forall l ensures c !in Next(limits, s, Release(r, reusable)).Idle(l) { assert c !in s.Idle(l); }
      hide WaitersSound, Waiting, OthersStay, OriginsStay, ReleaseSlot, Inv;
    }
  }

  /** A connection attempt that fails gives its slot back and leaves the idle connections alone. */
  lemma FailureReturnsSlot(limits: Limits, s: State, r: RequestId)
    requires Inv(limits, s) && Enabled(s, ConnectFailed(r))
    ensures var k, t := s.requests[r].phase.key, Next(limits, s, ConnectFailed(r));
            && t.Count(k) == s.Count(k) - 1 && t.Idle(k) == s.Idle(k) && t.open == s.open
            && r in t.requests && t.requests[r] == Request(Free, None) && OthersStay(s, t, r, k) && OriginsStay(s, t, k)
  {
    SlotIsReturned(limits, s, s.(requests := s.requests[r := Request(Free, None)]), r);
  }

  // ---- taking connections and slots

  /** The connections behind position `n` are closed. */
  predicate ClosedFrom(idle: seq<ConnectionId>, open: set<ConnectionId>, n: nat) {
    forall i :: n <= i < |idle| ==> idle[i] !in open
  }

  lemma {:induction false} TrimmedAt(idle: seq<ConnectionId>, open: set<ConnectionId>, n: nat)
    requires n <= |idle| && ClosedFrom(idle, open, n) && (n == 0 || idle[n - 1] in open)
    ensures TrimClosed(idle, open) == idle[..n]
    decreases |idle|
  {
    if n < |idle| {
      var front := idle[..|idle| - 1];
      TrimmedAt(front, open, n);
      assert front[..n] == idle[..n];
    } else {
      assert idle[..n] == idle;
    }
  }

  /** A request that finds an open idle connection leases the last such one. The closed ones behind it give their slots
      back, and no slot is taken. */
  lemma AcquireReuses(limits: Limits, s: State, r: RequestId, n: nat)
    requires Inv(limits, s) && Enabled(s, Acquire(r))
    requires var idle := s.Idle(s.requests[r].phase.key); 0 < n <= |idle| && idle[n - 1] in s.open && ClosedFrom(idle, s.open, n)
    ensures var k, t := s.requests[r].phase.key, Next(limits, s, Acquire(r));
            && t.requests == s.requests[r := Request(Holding(k, s.Idle(k)[n - 1]), None)]
            && t.Idle(k) == s.Idle(k)[..n - 1] && t.Count(k) == s.Count(k) - (|s.Idle(k)| - n) && t.open == s.open
            && t.queues == s.queues && OriginsStay(s, t, k)
  {
    var k := s.requests[r].phase.key;
    TrimmedAt(s.Idle(k), s.open, n);
    assert Conserved(limits, s, k);
    hide WaitersSound, SingleOwner, Users, Served, TrimClosed;
    assert s.Idle(k)[..n][..n - 1] == s.Idle(k)[..n - 1];
  }

  /** Without an open idle connection a request reserves a slot if one is free, and is queued last otherwise. */
  lemma AcquireReserves(limits: Limits, s: State, r: RequestId)
    requires Inv(limits, s) && Enabled(s, Acquire(r)) && ClosedFrom(s.Idle(s.requests[r].phase.key), s.open, 0)
    ensures var k, t := s.requests[r].phase.key, Next(limits, s, Acquire(r));
            var left := s.Count(k) - |s.Idle(k)|;
            && t.Idle(k) == [] && t.open == s.open && OriginsStay(s, t, k)
            && (limits.maxPerOrigin == 0 || left < limits.maxPerOrigin ==>
                  t.requests == s.requests[r := Request(Connecting(k), None)] && t.Count(k) == left + 1 && t.queues == s.queues)
            && (limits.maxPerOrigin != 0 && left >= limits.maxPerOrigin ==>
                  t.requests == s.requests[r := Request(Suspended(k, false, false), None)] && t.Count(k) == left
                  && t.queues == s.queues[k := (if k in s.queues then s.queues[k] else []) + [r]])
  {
    var k := s.requests[r].phase.key;
    TrimmedAt(s.Idle(k), s.open, 0);
    assert Conserved(limits, s, k);
    hide WaitersSound, SingleOwner, Users, Served, TrimClosed;
  }

  /** The queue gate holds a request back exactly when every slot is taken and no connection is idle. */
  lemma GateHoldsWhenFull(limits: Limits, s: State, r: RequestId)
    requires Enabled(s, Gate(r))
    ensures var k, t := s.requests[r].phase.key, Next(limits, s, Gate(r));
            if limits.maxPerOrigin != 0 && s.Count(k) >= limits.maxPerOrigin && s.Idle(k) == [] then
              && t.requests == s.requests[r := Request(Suspended(k, false, false), None)]
              && t.queues == s.queues[k := (if k in s.queues then s.queues[k] else []) + [r]]
              && t == s.(requests := t.requests, queues := t.queues)
            else t == s
  {}

  lemma LastIdleIsLeased(limits: Limits, s: State, r: RequestId, k: Key, idle: seq<ConnectionId>, c: ConnectionId)
    requires Inv(limits, s) && r in s.requests && s.requests[r].phase == Queueing(k)
    requires s.Idle(k) == idle + [c] && c in s.open
    ensures var t := Next(limits, s, Acquire(r));
            && r in t.requests && t.requests[r] == Request(Holding(k, c), None)
            && t.Count(k) == s.Count(k) && t.Idle(k) == idle && t.open == s.open
  {
    hide Inv;
    AcquireReuses(limits, s, r, |idle| + 1);
    hide Next;
    assert (idle + [c])[..|idle|] == idle;
  }

  lemma QueueingStays(s: State, t: State, r: RequestId, q: RequestId, k: Key)
    requires OthersStay(s, t, r, k) && q != r && q in s.requests && s.requests[q].phase.Queueing?
    ensures q in t.requests && t.requests[q] == s.requests[q]
  {
    assert q in t.requests.Keys - {r};
    assert q !in Waiting(s, k);
  }

  /** A connection that is given back is leased by the next request of its origin, and no slot is taken for it. */
  lemma ConnectionIsReused(limits: Limits, s: State, r: RequestId, q: RequestId)
    requires Inv(limits, s) && Enabled(s, Release(r, true)) && limits.keepAlive
    requires q != r && q in s.requests && s.requests[q].phase == Queueing(s.requests[r].phase.key)
    requires s.requests[r].phase.connection in s.open && |s.Idle(s.requests[r].phase.key)| < limits.poolSize
    ensures var k, c, t := s.requests[r].phase.key, s.requests[r].phase.connection, Next(limits, s, Release(r, true));
            && Enabled(t, Acquire(q))
            && var u := Next(limits, t, Acquire(q));
               && q in u.requests && u.requests[q] == Request(Holding(k, c), None)
               && u.Count(k) == s.Count(k) && u.Idle(k) == s.Idle(k) && c in u.open
  {
    var k, c, t := s.requests[r].phase.key, s.requests[r].phase.connection, Next(limits, s, Release(r, true));
    ReleaseReusesOrCloses(limits, s, r, true);
    StepKeepsInv(limits, s, Release(r, true));
    hide Inv, Next, OthersStay, OriginsStay;
    QueueingStays(s, t, r, q, k);
    LastIdleIsLeased(limits, t, q, k, s.Idle(k), c);
  }

  /** A new connection can be kept like any other when its first lease ends. */
  lemma FreshConnectionIsKept(limits: Limits, s: State, r: RequestId, c: ConnectionId)
    requires Inv(limits, s) && Enabled(s, Connected(r, c)) && limits.keepAlive && |s.Idle(s.requests[r].phase.key)| < limits.poolSize
    ensures var k, t := s.requests[r].phase.key, Next(limits, s, Connected(r, c));
            && t.Count(k) == s.Count(k) && Enabled(t, Release(r, true))
            && var u := Next(limits, t, Release(r, true));
               u.Idle(k) == s.Idle(k) + [c] && u.Count(k) == s.Count(k) && c in u.open
  {
    var t := Next(limits, s, Connected(r, c));
    StepKeepsInv(limits, s, Connected(r, c));
    ReleaseReusesOrCloses(limits, t, r, true);
    hide Inv, ReleaseLease, OthersStay, OriginsStay;
  }

  // ---- waiting

  /** A resumed request is queueing again, owns the notification it was given, and is no longer in the queue. */
  lemma ResumeLeavesQueue(limits: Limits, s: State, r: RequestId)
    requires Inv(limits, s) && Enabled(s, Resume(r))
    ensures var k, t := s.requests[r].phase.key, Next(limits, s, Resume(r));
            && t.requests == s.requests[r := Request(Queueing(k), if s.requests[r].phase.slotNotified then Some(k) else None)]
            && (k in t.queues ==> r !in t.queues[k])
            && (forall q :: q != r && k in s.queues && q in s.queues[k] ==> k in t.queues && q in t.queues[k])
            && t == s.(requests := t.requests, queues := t.queues)
            && forall l :: l != k ==> (l in t.queues <==> l in s.queues) && (l in s.queues ==> t.queues[l] == s.queues[l])
  {
    var k := s.requests[r].phase.key;
    assert QueueSound(s, k);
    if k in s.queues { UnqueueSpec(s.queues[k], r); }
  }

  /** A timer or a cancellation notifies its own request only, and gives it no slot notification. */
  lemma NudgeOwnsNothing(limits: Limits, s: State, r: RequestId, k: Key)
    requires Enabled(s, Nudge(r))
    ensures var t := Next(limits, s, Nudge(r));
            && r !in Waiting(t, k) && Waiting(t, k) == Waiting(s, k) - {r} && Notified(t, k) == Notified(s, k) && Users(t, k) == Users(s, k)
            && t == s.(requests := t.requests)
  {
    var t := Next(limits, s, Nudge(r));
    AfterUpdate(s, t, r, t.requests[r], k);
  }

  /** A request that leaves with a notification it has not used passes it on: if anybody waits, one waiter is notified. */
  lemma ExitPassesOn(limits: Limits, s: State, r: RequestId) returns (chosen: Option<RequestId>)
    requires Inv(limits, s) && Enabled(s, Exit(r))
    ensures var note, t := s.requests[r].notifiedOrigin, Next(limits, s, Exit(r));
            && (note.None? ==> t == s.(requests := s.requests - {r}))
            && (note.Some? && Waiting(s, note.value) == {} ==> t.requests == s.requests - {r})
            && (note.Some? && Waiting(s, note.value) != {} ==>
                  && chosen.Some? && chosen.value != r && chosen.value in Waiting(s, note.value)
                  && t.requests == (s.requests - {r})[chosen.value := s.requests[chosen.value].(phase := Suspended(note.value, true, true))])
            && t.counts == s.counts && t.idle == s.idle && t.open == s.open
  {
    var t, note := s.(requests := s.requests - {r}), s.requests[r].notifiedOrigin;
    chosen := None;
    if note.Some? {
      forall l ensures QueueSound(t, l) { assert QueueSound(s, l); }
      forall q | q in t.requests ensures RequestSound(t, q) { assert RequestSound(s, q); }
      AfterRemoval(s, t, r, note.value);
      assert r !in Waiting(s, note.value);
      chosen := WakeSpec(t, note.value);
    }
  }
}
