/** The client's connection pool: per-origin slot counts, idle connections and the queue of
    suspended requests.

    Every change of this state happens on the I/O loop between two suspension points, so one
    operation below is one atomic step. Clocks, sockets and cancellation appear as steps that may
    happen at any time (`Nudge`, `Resume`, `Die`, `Exit`, `ConnectFailed`).
 */
module ConnectionPool {
  import opened Wrappers

  type Key = string
  type RequestId = nat
  type ConnectionId = nat

  /** Client options. A `maxPerOrigin` of zero means that slots are not limited. */
  datatype Limits = Limits(maxPerOrigin: nat, poolSize: nat, keepAlive: bool)

  /** Where a live request is. `Suspended` is a request with a registered `PoolWaiter`. */
  datatype Phase =
    | Free
    | Queueing(key: Key)
    | Suspended(key: Key, notified: bool, slotNotified: bool)
    | Connecting(key: Key)
    | Holding(key: Key, connection: ConnectionId)

  /** A live request and the slot notification that it owns, if any (`notified_origin`). */
  datatype Request = Request(phase: Phase, notifiedOrigin: Option<Key>)

  datatype State = State(
    counts: map<Key, nat>,
    idle: map<Key, seq<ConnectionId>>,
    queues: map<Key, seq<RequestId>>,
    requests: map<RequestId, Request>,
    open: set<ConnectionId>,
    created: set<ConnectionId>)
  {
    function Count(k: Key): nat {
      if k in counts then counts[k] else 0
    }

    function Idle(k: Key): seq<ConnectionId> {
      if k in idle then idle[k] else []
    }

    predicate Wakeable(r: RequestId) {
      r in requests && requests[r].phase.Suspended? && !requests[r].phase.notified
    }
  }

  const InitialState := State(map[], map[], map[], map[], {}, {})

  /** The atomic steps of the protocol. */
  datatype Action =
    | Begin(request: RequestId)
    | Seek(request: RequestId, key: Key)
    | Gate(request: RequestId)
    | Acquire(request: RequestId)
    | Nudge(request: RequestId)
    | Resume(request: RequestId)
    | Connected(request: RequestId, connection: ConnectionId)
    | ConnectFailed(request: RequestId)
    | Release(request: RequestId, reusable: bool)
    | Exit(request: RequestId)
    | Die(connection: ConnectionId)

  predicate Enabled(s: State, a: Action) {
    match a
    case Begin(r) => r !in s.requests
    case Seek(r, _) => r in s.requests && s.requests[r].phase.Free?
    case Gate(r) => r in s.requests && s.requests[r].phase.Queueing?
    case Acquire(r) => r in s.requests && s.requests[r].phase.Queueing?
    case Nudge(r) => r in s.requests && s.requests[r].phase.Suspended?
    case Resume(r) => r in s.requests && s.requests[r].phase.Suspended?
    case Connected(r, c) => r in s.requests && s.requests[r].phase.Connecting? && c !in s.created
    case ConnectFailed(r) => r in s.requests && s.requests[r].phase.Connecting?
    case Release(r, _) => r in s.requests && s.requests[r].phase.Holding?
    case Exit(r) => r in s.requests && (s.requests[r].phase.Free? || s.requests[r].phase.Queueing?)
    case Die(_) => true
  }

  // ---- what each operation does to the state

  /** The waiters that stay queued, and the first waiter that nobody has notified yet. */
  function PopWaiter(s: State, queue: seq<RequestId>): (seq<RequestId>, Option<RequestId>) {
    if queue == [] then ([], None)
    else if s.Wakeable(queue[0]) then (queue[1..], Some(queue[0]))
    else PopWaiter(s, queue[1..])
  }

  function SetQueue(s: State, k: Key, queue: seq<RequestId>): State {
    s.(queues := if queue == [] then s.queues - {k} else s.queues[k := queue])
  }

  function NotifySlot(s: State, r: RequestId): State
    requires s.Wakeable(r)
  {
    s.(requests := s.requests[r := s.requests[r].(phase := s.requests[r].phase.(notified := true, slotNotified := true))])
  }

  lemma PoppedIsWakeable(s: State, queue: seq<RequestId>)
    ensures PopWaiter(s, queue).1.Some? ==>
              s.Wakeable(PopWaiter(s, queue).1.value) && PopWaiter(s, queue).1.value in queue
  {}

  /** Notifies the first waiter of `k` that is not notified yet, dropping the notified ones before it. */
  function Wake(s: State, k: Key): State {
    if k !in s.queues then s
    else
      var (rest, chosen) := PopWaiter(s, s.queues[k]);
      PoppedIsWakeable(s, s.queues[k]);
      SetQueue(if chosen.Some? then NotifySlot(s, chosen.value) else s, k, rest)
  }

  function DropSlot(s: State, k: Key): State {
    if k in s.counts && s.counts[k] != 0 then
      if s.counts[k] == 1 then s.(counts := s.counts - {k}, idle := s.idle - {k})
      else s.(counts := s.counts[k := s.counts[k] - 1])
    else s
  }

  function ReleaseSlot(s: State, k: Key): State {
    Wake(DropSlot(s, k), k)
  }

  function Suspend(s: State, r: RequestId, k: Key): State {
    s.(queues := s.queues[k := (if k in s.queues then s.queues[k] else []) + [r]],
       requests := s.requests[r := Request(Suspended(k, false, false), None)])
  }

  predicate Full(limits: Limits, s: State, k: Key) {
    limits.maxPerOrigin != 0 && s.Count(k) >= limits.maxPerOrigin && s.Idle(k) == []
  }

  /** The idle connections that remain once the closed ones at the back are dropped. */
  function TrimClosed(idle: seq<ConnectionId>, open: set<ConnectionId>): (kept: seq<ConnectionId>)
    ensures kept <= idle
    ensures kept != [] ==> kept[|kept| - 1] in open
  {
    if idle == [] || idle[|idle| - 1] in open then idle else TrimClosed(idle[..|idle| - 1], open)
  }

  function Minus(count: nat, dead: nat): nat {
    if dead <= count then count - dead else 0
  }

  /** Closed idle connections of `k` give their slots back. */
  function DropClosed(s: State, k: Key): State {
    var kept := TrimClosed(s.Idle(k), s.open);
    var dead := |s.Idle(k)| - |kept|;
    s.(idle := s.idle[k := kept],
       counts := if dead == 0 then s.counts else s.counts[k := Minus(s.Count(k), dead)])
  }

  function Lease(limits: Limits, s: State, r: RequestId, k: Key): State {
    var idle := s.Idle(k);
    if idle != [] then
      s.(idle := s.idle[k := idle[..|idle| - 1]],
         requests := s.requests[r := Request(Holding(k, idle[|idle| - 1]), None)])
    else if limits.maxPerOrigin == 0 || s.Count(k) < limits.maxPerOrigin then
      s.(counts := s.counts[k := s.Count(k) + 1],
         requests := s.requests[r := Request(Connecting(k), None)])
    else
      Suspend(s, r, k)
  }

  function Unqueue(queue: seq<RequestId>, r: RequestId): seq<RequestId> {
    if queue == [] then [] else if queue[0] == r then queue[1..] else [queue[0]] + Unqueue(queue[1..], r)
  }

  function ResumeWaiter(s: State, r: RequestId): State
    requires r in s.requests && s.requests[r].phase.Suspended?
  {
    var k := s.requests[r].phase.key;
    var note := if s.requests[r].phase.slotNotified then Some(k) else None;
    var s' := if k in s.queues then SetQueue(s, k, Unqueue(s.queues[k], r)) else s;
    s'.(requests := s.requests[r := Request(Queueing(k), note)])
  }

  function ReleaseLease(limits: Limits, s: State, r: RequestId, reusable: bool): State
    requires r in s.requests && s.requests[r].phase.Holding?
  {
    var k, c := s.requests[r].phase.key, s.requests[r].phase.connection;
    var s' := s.(requests := s.requests[r := Request(Free, None)]);
    if reusable && limits.keepAlive && c in s.open && |s.Idle(k)| < limits.poolSize then
      Wake(s'.(idle := s.idle[k := s.Idle(k) + [c]]), k)
    else
      ReleaseSlot(s'.(open := s.open - {c}), k)
  }

  function Leave(s: State, r: RequestId): State
    requires r in s.requests
  {
    var s' := s.(requests := s.requests - {r});
    if s.requests[r].notifiedOrigin.Some? then Wake(s', s.requests[r].notifiedOrigin.value) else s'
  }

  /** The state after one step. */
  function Next(limits: Limits, s: State, a: Action): State
    requires Enabled(s, a)
  {
    match a
    case Begin(r) => s.(requests := s.requests[r := Request(Free, None)])
    case Seek(r, k) => s.(requests := s.requests[r := s.requests[r].(phase := Queueing(k))])
    case Gate(r) =>
      var k := s.requests[r].phase.key;
      if Full(limits, s, k) then Suspend(s, r, k) else s
    case Acquire(r) =>
      var k := s.requests[r].phase.key;
      Lease(limits, DropClosed(s, k), r, k)
    case Nudge(r) => s.(requests := s.requests[r := s.requests[r].(phase := s.requests[r].phase.(notified := true))])
    case Resume(r) => ResumeWaiter(s, r)
    case Connected(r, c) =>
      s.(requests := s.requests[r := s.requests[r].(phase := Holding(s.requests[r].phase.key, c))],
         open := s.open + {c}, created := s.created + {c})
    case ConnectFailed(r) =>
      ReleaseSlot(s.(requests := s.requests[r := Request(Free, None)]), s.requests[r].phase.key)
    case Release(r, reusable) => ReleaseLease(limits, s, r, reusable)
    case Exit(r) => Leave(s, r)
    case Die(c) => s.(open := s.open - {c})
  }

  // ---- the implementation

  /** `AsyncClient::Impl`, reduced to the fields of the pool. */
  class Pool {
    const limits: Limits
    var counts: map<Key, nat>
    var idle: map<Key, seq<ConnectionId>>
    var queues: map<Key, seq<RequestId>>
    var requests: map<RequestId, Request>
    var open: set<ConnectionId>
    ghost var created: set<ConnectionId>

    constructor (limits: Limits)
      ensures this.limits == limits && Abstract() == InitialState
    {
      this.limits := limits;
      counts, idle, queues, requests, open, created := map[], map[], map[], map[], {}, {};
    }

    ghost function Abstract(): State
      reads this
    {
      State(counts, idle, queues, requests, open, created)
    }

    /** `wake_pool_waiter` */
    method WakePoolWaiter(key: Key)
      modifies this`queues, this`requests
      ensures Abstract() == Wake(old(Abstract()), key)
    {
      if key !in queues { return; }
      ghost var s := Abstract();
      ghost var chosen: Option<RequestId> := None;
      while queues[key] != []
        invariant key in queues && requests == s.requests
        invariant queues == s.queues[key := queues[key]]
        invariant PopWaiter(s, queues[key]) == PopWaiter(s, s.queues[key])
        decreases |queues[key]|
      {
        var waiter := queues[key][0];
        ghost var before := queues[key];
        queues := queues[key := queues[key][1..]];
        if waiter in requests && requests[waiter].phase.Suspended? && !requests[waiter].phase.notified {
          assert PopWaiter(s, before) == (before[1..], Some(waiter));
          var phase := requests[waiter].phase.(notified := true, slotNotified := true);
          requests := requests[waiter := requests[waiter].(phase := phase)];
          if queues[key] == [] { queues := queues - {key}; }
          return;
        }
      }
      queues := queues - {key};
    }

    /** `release_slot` */
    method ReturnSlot(key: Key)
      modifies this`counts, this`idle, this`queues, this`requests
      ensures Abstract() == ReleaseSlot(old(Abstract()), key)
    {
      if key in counts && counts[key] != 0 {
        counts := counts[key := counts[key] - 1];
        if counts[key] == 0 {
          counts := counts - {key};
          idle := idle - {key};
        }
      }
      assert Abstract() == DropSlot(old(Abstract()), key);
      WakePoolWaiter(key);
    }

    /** `PoolAwaiter::await_suspend` */
    method AwaitSuspend(r: RequestId, key: Key)
      modifies this`queues, this`requests
      ensures Abstract() == Suspend(old(Abstract()), r, key)
    {
      if key !in queues { queues := queues[key := []]; }
      queues := queues[key := queues[key] + [r]];
      requests := requests[r := Request(Suspended(key, false, false), None)];
    }

    /** `PoolAwaiter::await_resume`, run when the waiter's timer fires */
    method AwaitResume(r: RequestId)
      requires Enabled(Abstract(), Resume(r))
      modifies this`queues, this`requests
      ensures Abstract() == Next(limits, old(Abstract()), Resume(r))
    {
      var key := requests[r].phase.key;
      if key in queues {
        var rest := Unqueue(queues[key], r);
        if rest == [] { queues := queues - {key}; } else { queues := queues[key := rest]; }
      }
      var note := if requests[r].phase.slotNotified then Some(key) else None;
      requests := requests[r := Request(Queueing(key), note)];
    }

    /** One pass of the queue gate of `request`. */
    method PassGate(r: RequestId) returns (admitted: bool)
      requires Enabled(Abstract(), Gate(r))
      modifies this`queues, this`requests
      ensures Abstract() == Next(limits, old(Abstract()), Gate(r))
      ensures admitted == !Full(limits, old(Abstract()), old(requests[r].phase.key))
    {
      var key := requests[r].phase.key;
      var full := limits.maxPerOrigin != 0 && key in counts && counts[key] >= limits.maxPerOrigin &&
                  (key !in idle || idle[key] == []);
      if full { AwaitSuspend(r, key); }
      admitted := !full;
    }

    /** Pops idle connections of `key` from the back until one is open; closed ones return their slot. */
    method PopIdle(key: Key) returns (lease: Option<ConnectionId>)
      modifies this`counts, this`idle
      ensures lease.Some? <==> DropClosed(old(Abstract()), key).Idle(key) != []
      ensures var s := DropClosed(old(Abstract()), key);
              var kept := s.Idle(key);
              if kept == [] then Abstract() == s
              else lease == Some(kept[|kept| - 1]) && Abstract() == s.(idle := s.idle[key := kept[..|kept| - 1]])
    {
      ghost var s := Abstract();
      var entries := if key in idle then idle[key] else [];
      ghost var all := entries;
      while entries != []
        invariant entries <= all && idle == s.idle
        invariant TrimClosed(entries, open) == TrimClosed(all, open)
        invariant counts == if |entries| == |all| then s.counts
                            else s.counts[key := Minus(s.Count(key), |all| - |entries|)]
      {
        var candidate := entries[|entries| - 1];
        ghost var kept := entries;
        entries := entries[..|entries| - 1];
        if candidate in open {
          assert TrimClosed(all, open) == kept;
          assert s.idle[key := kept][key := entries] == s.idle[key := entries];
          idle := idle[key := entries];
          return Some(candidate);
        }
        var count := if key in counts then counts[key] else 0;
        if count != 0 { count := count - 1; }
        counts := counts[key := count];
      }
      idle := idle[key := entries];
      lease := None;
      assert TrimClosed(all, open) == [];
    }

    /** One pass of the loop of `acquire`. */
    method TryAcquire(r: RequestId)
      requires Enabled(Abstract(), Acquire(r))
      modifies this`counts, this`idle, this`queues, this`requests
      ensures Abstract() == Next(limits, old(Abstract()), Acquire(r))
    {
      var key := requests[r].phase.key;
      var lease := PopIdle(key);
      if lease.Some? {
        requests := requests[r := Request(Holding(key, lease.value), None)];
        return;
      }
      var count := if key in counts then counts[key] else 0;
      if limits.maxPerOrigin == 0 || count < limits.maxPerOrigin {
        counts := counts[key := count + 1];
        requests := requests[r := Request(Connecting(key), None)];
      } else {
        AwaitSuspend(r, key);
      }
    }

    /** A finished connection attempt: the slot is now backed by a new connection. */
    method Adopt(r: RequestId, connection: ConnectionId)
      requires Enabled(Abstract(), Connected(r, connection))
      modifies this`requests, this`open, this`created
      ensures Abstract() == Next(limits, old(Abstract()), Connected(r, connection))
    {
      requests := requests[r := requests[r].(phase := Holding(requests[r].phase.key, connection))];
      open := open + {connection};
      created := created + {connection};
    }

    /** `fail` and `fail_connection` of `acquire` */
    method Fail(r: RequestId)
      requires Enabled(Abstract(), ConnectFailed(r))
      modifies this`counts, this`idle, this`queues, this`requests
      ensures Abstract() == Next(limits, old(Abstract()), ConnectFailed(r))
    {
      var key := requests[r].phase.key;
      requests := requests[r := Request(Free, None)];
      ReturnSlot(key);
    }

    /** `release` */
    method GiveBack(r: RequestId, reusable: bool)
      requires Enabled(Abstract(), Release(r, reusable))
      modifies this
      ensures Abstract() == Next(limits, old(Abstract()), Release(r, reusable))
    {
      var key, connection := requests[r].phase.key, requests[r].phase.connection;
      requests := requests[r := Request(Free, None)];
      if !reusable || !limits.keepAlive || connection !in open {
        open := open - {connection};
        ReturnSlot(key);
        return;
      }
      var pooled := false;
      var entries := if key in idle then idle[key] else [];
      if |entries| < limits.poolSize {
        idle := idle[key := entries + [connection]];
        pooled := true;
      }
      if pooled {
        WakePoolWaiter(key);
      } else {
        open := open - {connection};
        ReturnSlot(key);
      }
    }

    /** `discard` */
    method Discard(r: RequestId)
      requires Enabled(Abstract(), Release(r, false))
      modifies this
      ensures Abstract() == Next(limits, old(Abstract()), Release(r, false))
    {
      var key, connection := requests[r].phase.key, requests[r].phase.connection;
      requests := requests[r := Request(Free, None)];
      open := open - {connection};
      ReturnSlot(key);
    }

    /** The destructor of the `Registration` guard: a notification that was not used is passed on. */
    method Unregister(r: RequestId)
      requires Enabled(Abstract(), Exit(r))
      modifies this`queues, this`requests
      ensures Abstract() == Next(limits, old(Abstract()), Exit(r))
    {
      var note := requests[r].notifiedOrigin;
      requests := requests - {r};
      if note.Some? { WakePoolWaiter(note.value); }
    }
  }
}
