/** `AsyncFileSink`: actions submitted from any thread run one at a time, each once and in submission
    order, although the pool of file threads may run several tasks at once. */
module FileActions {
  import opened Wrappers

  type Operation = nat
  type Processor = nat

  /** `processors` are the `process` calls handed to the file pool and not returned yet, with the action
      each one is executing. `accepted` and `executed` record history. */
  datatype State = State(
    pending: seq<Operation>,
    workerRunning: bool,
    processors: map<Processor, Option<Operation>>,
    accepted: seq<Operation>,
    executed: seq<Operation>)

  const InitialState := State([], false, map[], [], [])

  /** `Submit(_, processor)` carries the task the file pool would start, or `None` when it refuses one. */
  datatype Step =
    | Submit(operation: Operation, processor: Option<Processor>)
    | Take(taker: Processor)
    | Complete(executor: Processor)

  predicate Enabled(s: State, step: Step) {
    match step
    case Submit(_, processor) => processor.Some? ==> processor.value !in s.processors
    case Take(p) => p in s.processors && s.processors[p].None?
    case Complete(p) => p in s.processors && s.processors[p].Some?
  }

  function Next(s: State, step: Step): State
    requires Enabled(s, step)
  {
    match step
    case Submit(operation, processor) =>
      if s.workerRunning then
        s.(pending := s.pending + [operation], accepted := s.accepted + [operation])
      else if processor.Some? then
        s.(pending := s.pending + [operation], accepted := s.accepted + [operation],
           workerRunning := true, processors := s.processors[processor.value := None])
      else s
    case Take(p) =>
      if s.pending == [] then s.(workerRunning := false, processors := s.processors - {p})
      else s.(pending := s.pending[1..], processors := s.processors[p := Some(s.pending[0])])
    case Complete(p) =>
      s.(executed := s.executed + [s.processors[p].value], processors := s.processors[p := None])
  }

  /** The action being executed, as a sequence of at most one. */
  function Current(s: State, p: Processor): seq<Operation> {
    if p in s.processors && s.processors[p].Some? then [s.processors[p].value] else []
  }

  ghost predicate Inv(s: State) {
    && (!s.workerRunning ==> s.processors == map[] && s.pending == [] && s.accepted == s.executed)
    && (s.workerRunning ==>
          exists p :: s.processors.Keys == {p} && s.accepted == s.executed + Current(s, p) + s.pending)
  }

  ghost predicate IsRun(states: seq<State>, steps: seq<Step>) {
    && |states| == |steps| + 1
    && states[0] == InitialState
    && forall i :: 0 <= i < |steps| ==> Enabled(states[i], steps[i]) && states[i + 1] == Next(states[i], steps[i])
  }

  lemma StepKeepsInv(s: State, step: Step)
    requires Inv(s) && Enabled(s, step)
    ensures Inv(Next(s, step))
  {
    var t := Next(s, step);
    if s.workerRunning {
      var p :| s.processors.Keys == {p} && s.accepted == s.executed + Current(s, p) + s.pending;
      match step
      case Submit(_, _) => assert t.accepted == t.executed + Current(t, p) + t.pending;
      case Take(q) =>
        assert q == p;
        if s.pending == [] {
          assert t.processors.Keys == {};
          assert t.processors == map[];
        } else {
          assert t.processors.Keys == {p};
          assert t.accepted == t.executed + Current(t, p) + t.pending;
        }
      case Complete(q) =>
        assert q == p;
        assert t.processors.Keys == {p};
        assert t.accepted == t.executed + Current(t, p) + t.pending;
    } else {
      match step
      case Submit(_, processor) =>
        if processor.Some? {
          assert t.processors.Keys == {processor.value};
          assert t.accepted == t.executed + Current(t, processor.value) + t.pending;
        }
    }
  }

  /** Exactly once, in order and one at a time: in every state of every run, what has been executed,
      what is being executed and what is pending are together what was accepted, and only one task of
      the file pool ever works for the sink. */
  lemma {:induction false} ActionsRunOnceInOrder(states: seq<State>, steps: seq<Step>, i: nat) returns (current: seq<Operation>)
    requires IsRun(states, steps) && i < |states|
    ensures Inv(states[i])
    ensures states[i].accepted == states[i].executed + current + states[i].pending && |current| <= 1
    ensures forall p, q :: p in states[i].processors && q in states[i].processors ==> p == q
    ensures states[i].pending != [] ==> states[i].processors != map[]
    decreases i
  {
    if i > 0 {
      var _ := ActionsRunOnceInOrder(states, steps, i - 1);
      StepKeepsInv(states[i - 1], steps[i - 1]);
    }
    var s := states[i];
    if s.workerRunning {
      var p :| s.processors.Keys == {p} && s.accepted == s.executed + Current(s, p) + s.pending;
      current := Current(s, p);
      assert p in s.processors;
    } else {
      current := [];
    }
  }

  // ---- every accepted action is executed

  /** An action is refused only when a task is needed and the file pool has none; otherwise it is the last one accepted. */
  lemma SubmissionIsAccepted(s: State, operation: Operation, processor: Option<Processor>)
    requires Enabled(s, Submit(operation, processor))
    ensures var t := Next(s, Submit(operation, processor));
            && t.executed == s.executed
            && (s.workerRunning || processor.Some? ==>
                  t.accepted == s.accepted + [operation] && t.pending == s.pending + [operation] && t.workerRunning)
            && (!s.workerRunning && processor.None? ==> t == s)
  {}

  ghost predicate Busy(s: State) {
    exists p :: p in s.processors && s.processors[p].Some?
  }

  /** How many steps the file pool still takes if nothing more is submitted. */
  ghost function Work(s: State): nat {
    3 * |s.pending| + (if Busy(s) then 2 else 0) + if s.workerRunning then 1 else 0
  }

  lemma WorkDescends(s: State, step: Step)
    requires Inv(s) && Enabled(s, step) && !step.Submit?
    ensures Work(Next(s, step)) < Work(s)
  {
    var t := Next(s, step);
    assert s.workerRunning;
    var p :| s.processors.Keys == {p} && s.accepted == s.executed + Current(s, p) + s.pending;
    assert p in s.processors;
    match step
    case Take(q) =>
      assert q in s.processors.Keys;
      assert !Busy(s);
      if s.pending == [] { assert t.processors.Keys == {}; assert !Busy(t); }
    case Complete(q) =>
      assert q in s.processors.Keys;
      assert Busy(s);
      assert t.processors.Keys == {p} && t.processors[p].None?;
      assert !Busy(t);
  }

  lemma ProcessorMoves(s: State, p: Processor)
    requires p in s.processors
    ensures Enabled(s, Take(p)) || Enabled(s, Complete(p))
  {}

  /** A pool that has nothing to do for a sink has executed everything that was accepted, in order. */
  lemma NothingIsForgotten(states: seq<State>, steps: seq<Step>)
    requires IsRun(states, steps)
    requires forall p :: !Enabled(states[|steps|], Take(p)) && !Enabled(states[|steps|], Complete(p))
    ensures states[|steps|].executed == states[|steps|].accepted && states[|steps|].pending == []
  {
    var s := states[|steps|];
    var current := ActionsRunOnceInOrder(states, steps, |steps|);
    if s.workerRunning {
      var p :| s.processors.Keys == {p} && s.accepted == s.executed + Current(s, p) + s.pending;
      assert p in s.processors;
      ProcessorMoves(s, p);
    }
  }
}
