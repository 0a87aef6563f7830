/** The completion channel between a coroutine and its single consumer: one atomic word, one
    reference count, and a mutex with a condition variable that only a blocking consumer uses.

    A state records where each of the two parties is between its atomic operations; a run is any
    interleaving of their steps, with spurious wakeups of the condition variable. Memory is
    sequentially consistent.
 */
module TaskChannel {
  import opened Wrappers

  /** The atomic word `handoff`. `Continuation` stands for the address of the awaiting coroutine. */
  datatype Word = Unclaimed | Completed | Parked | Continuation

  /** The finishing coroutine: `publish`, then `release_task_state`, at the final suspend point. */
  datatype Producer =
    | Running
    | Stored
    | Resuming
    | Locking
    | Notifying
    | Unlocking
    | Releasing
    | CheckingDone
    | Destroying
    | Finished

  /** The consumer: it drops the task, blocks in `get`, or awaits it. */
  datatype Consumer =
    | HasTask
    | WaitLoading
    | WaitTesting(current: Word)
    | WaitAllocating
    | WaitClaiming
    | WaitLocking
    | WaitPredicate
    | WaitEntering
    | Asleep
    | Woken
    | ReadyTesting
    | Claiming
    | Suspended
    | Reading
    | Dropping
    | CheckingLast
    | DestroyingFrame
    | Done

  datatype Party = TheProducer | TheConsumer

  datatype State = State(
    word: Word,
    references: int,
    stored: bool,
    block: bool,
    owner: Option<Party>,
    producer: Producer,
    consumer: Consumer,
    claimed: bool,
    resumed: nat,
    read: nat,
    destroyed: nat)

  const InitialState :=
    State(Unclaimed, 2, false, false, None, Running, HasTask, false, 0, 0, 0)

  datatype Action = Produce | Drop | Get | Await | Poll | Consume | Spurious

  /** One atomic operation of the producer; `None` when it has to wait or is done. */
  function ProducerStep(s: State): Option<State> {
    match s.producer
    case Running => Some(s.(stored := true, producer := Stored))
    case Stored =>
      Some(s.(word := Completed,
              producer := match s.word
                          case Continuation => Resuming
                          case Parked => Locking
                          case _ => Releasing))
    case Resuming =>
      Some(s.(producer := Releasing, resumed := s.resumed + 1,
              consumer := if s.consumer.Suspended? then Reading else s.consumer))
    case Locking => if s.owner != None then None else Some(s.(owner := Some(TheProducer), producer := Notifying))
    case Notifying => Some(s.(producer := Unlocking, consumer := if s.consumer.Asleep? then Woken else s.consumer))
    case Unlocking => Some(s.(owner := None, producer := Releasing))
    case Releasing =>
      Some(s.(references := s.references - 1, producer := if s.references == 1 then CheckingDone else Finished))
    case CheckingDone => Some(s.(producer := if s.word == Completed then Destroying else Finished))
    case Destroying => Some(s.(destroyed := s.destroyed + 1, producer := Finished))
    case Finished => None
  }

  /** One atomic operation of the consumer after it chose what to do with its task. */
  function ConsumerStep(s: State): Option<State> {
    match s.consumer
    case HasTask => None
    case WaitLoading => Some(s.(consumer := WaitTesting(s.word)))
    case WaitTesting(current) =>
      Some(s.(consumer := match current
                          case Completed => Reading
                          case Unclaimed => WaitAllocating
                          case Parked => WaitLocking
                          case Continuation => WaitLoading))
    case WaitAllocating => Some(s.(block := true, consumer := WaitClaiming))
    case WaitClaiming =>
      // A successful exchange leaves the expected value in place, so the loop tests it once more.
      if s.word == Unclaimed then Some(s.(word := Parked, consumer := WaitTesting(Unclaimed)))
      else Some(s.(consumer := WaitTesting(s.word)))
    case WaitLocking => if s.owner != None then None else Some(s.(owner := Some(TheConsumer), consumer := WaitPredicate))
    case WaitPredicate =>
      if s.word == Completed then Some(s.(owner := None, consumer := Reading)) else Some(s.(consumer := WaitEntering))
    case WaitEntering => Some(s.(owner := None, consumer := Asleep))
    case Asleep => None
    case Woken => if s.owner != None then None else Some(s.(owner := Some(TheConsumer), consumer := WaitPredicate))
    case ReadyTesting => Some(s.(consumer := if s.word == Completed then Reading else Claiming))
    case Claiming =>
      if s.word == Unclaimed then Some(s.(word := Continuation, claimed := true, consumer := Suspended))
      else Some(s.(consumer := if s.word == Completed then Reading else Claiming))
    case Suspended => None
    case Reading => Some(s.(read := s.read + 1, consumer := Dropping))
    case Dropping =>
      Some(s.(references := s.references - 1, consumer := if s.references == 1 then CheckingLast else Done))
    case CheckingLast => Some(s.(consumer := if s.word == Completed then DestroyingFrame else Done))
    case DestroyingFrame => Some(s.(destroyed := s.destroyed + 1, consumer := Done))
    case Done => None
  }

  /** The state after an action, or `None` when the action cannot happen. */
  function Next(s: State, a: Action): Option<State> {
    match a
    case Produce => ProducerStep(s)
    case Consume => ConsumerStep(s)
    case Drop => if s.consumer.HasTask? then Some(s.(consumer := Dropping)) else None
    case Get => if s.consumer.HasTask? then Some(s.(consumer := WaitLoading)) else None
    case Await => if s.consumer.HasTask? then Some(s.(consumer := ReadyTesting)) else None
    case Poll => if s.consumer.HasTask? then Some(s) else None
    case Spurious => if s.consumer.Asleep? then Some(s.(consumer := Woken)) else None
  }

  // ---- the invariant

  predicate Published(s: State) {
    !s.producer.Running? && !s.producer.Stored?
  }

  predicate ProducerReleased(s: State) {
    s.producer.CheckingDone? || s.producer.Destroying? || s.producer.Finished?
  }

  predicate ConsumerReleased(s: State) {
    s.consumer.CheckingLast? || s.consumer.DestroyingFrame? || s.consumer.Done?
  }

  /** Inside `wait`, after the word may have been set to `Parked`. */
  predicate MayBeParked(s: State) {
    match s.consumer
    case WaitTesting(current) => current.Unclaimed? || current.Parked?
    case WaitAllocating => true
    case WaitClaiming => true
    case WaitLocking => true
    case WaitPredicate => true
    case WaitEntering => true
    case Asleep => true
    case Woken => true
    case _ => false
  }

  /** Past the point where the consumer itself stored `Parked`. */
  predicate HasParked(s: State) {
    match s.consumer
    case WaitTesting(current) => current.Parked?
    case WaitLocking => true
    case WaitPredicate => true
    case WaitEntering => true
    case Asleep => true
    case Woken => true
    case _ => false
  }

  predicate References(s: State) {
    && s.references == (if ProducerReleased(s) then 0 else 1) + (if ConsumerReleased(s) then 0 else 1)
    && (s.producer.CheckingDone? || s.producer.Destroying? ==> s.consumer.Done?)
    && (s.consumer.CheckingLast? || s.consumer.DestroyingFrame? ==> s.producer.Finished?)
    && s.destroyed == (if s.producer.Finished? && s.consumer.Done? then 1 else 0)
  }

  predicate WordSound(s: State) {
    && (s.word == Completed <==> Published(s))
    && (s.stored <==> !s.producer.Running?)
    && (s.word == Continuation ==> s.consumer.Suspended?)
    && (s.word == Parked ==> MayBeParked(s) && s.block)
    && (s.consumer.WaitTesting? ==>
          && (s.consumer.current == Completed ==> s.word == Completed)
          && s.consumer.current != Continuation)
    && (HasParked(s) ==> s.block && (s.word == Parked || s.word == Completed))
    && (s.consumer.WaitClaiming? ==> s.block)
    && (s.consumer.Reading? ==> s.word == Completed)
  }

  /** The continuation is resumed once, and the result is read once. */
  predicate Resumption(s: State) {
    && (s.consumer.Suspended? ==> s.claimed && (s.word == Continuation || s.producer.Resuming?))
    && (s.producer.Resuming? ==> s.consumer.Suspended?)
    && s.resumed == (if s.claimed && !s.consumer.Suspended? then 1 else 0)
    && (s.claimed ==> s.consumer.Suspended? || s.consumer.Reading? || s.consumer.Dropping? || ConsumerReleased(s))
    && s.read <= (if s.consumer.Dropping? || ConsumerReleased(s) then 1 else 0)
  }

  predicate MutexSound(s: State) {
    && (s.producer.Locking? || s.producer.Notifying? || s.producer.Unlocking? ==> s.block)
    && (s.owner == Some(TheConsumer) <==> s.consumer.WaitPredicate? || s.consumer.WaitEntering?)
    && (s.owner == Some(TheProducer) <==> s.producer.Notifying? || s.producer.Unlocking?)
  }

  predicate Handover(s: State) {
    Resumption(s) && MutexSound(s)
  }

  /** A sleeping consumer is not completed yet, or the producer is still on its way to notify it. */
  predicate WakePending(s: State) {
    (s.consumer.Asleep? || s.consumer.WaitEntering?) ==>
      s.word == Parked || s.producer.Locking? || (s.producer.Notifying? && s.consumer.Asleep?)
  }

  predicate Inv(s: State) {
    References(s) && WordSound(s) && Handover(s) && WakePending(s)
  }

  lemma ProducerKeepsCounts(s: State)
    requires Inv(s) && ProducerStep(s).Some?
    ensures References(ProducerStep(s).value) && WakePending(ProducerStep(s).value)
  {}

  lemma ProducerKeepsWord(s: State)
    requires Inv(s) && ProducerStep(s).Some?
    ensures WordSound(ProducerStep(s).value)
  {}

  lemma ProducerKeepsHandover(s: State)
    requires Inv(s) && ProducerStep(s).Some?
    ensures Handover(ProducerStep(s).value)
  {}

  lemma ConsumerKeepsCounts(s: State)
    requires Inv(s) && ConsumerStep(s).Some?
    ensures References(ConsumerStep(s).value) && WakePending(ConsumerStep(s).value)
  {}

  lemma ConsumerKeepsWord(s: State)
    requires Inv(s) && ConsumerStep(s).Some?
    ensures WordSound(ConsumerStep(s).value)
  {}

  lemma ConsumerKeepsResumption(s: State)
    requires Inv(s) && ConsumerStep(s).Some?
    ensures Resumption(ConsumerStep(s).value)
  {}

  lemma ConsumerKeepsMutex(s: State)
    requires Inv(s) && ConsumerStep(s).Some?
    ensures MutexSound(ConsumerStep(s).value)
  {}

  lemma StepKeepsInv(s: State, a: Action)
    requires Inv(s) && Next(s, a).Some?
    ensures Inv(Next(s, a).value)
  {
    match a
    case Produce => ProducerKeepsCounts(s); ProducerKeepsWord(s); ProducerKeepsHandover(s);
    case Consume => ConsumerKeepsCounts(s); ConsumerKeepsWord(s); ConsumerKeepsResumption(s); ConsumerKeepsMutex(s);
    case _ =>
  }

  /** Whoever owns the mutex is about to do something that does not wait. */
  lemma OwnerIsBusy(s: State)
    requires Inv(s) && s.owner.Some?
    ensures s.producer.Notifying? || s.producer.Unlocking? || s.consumer.WaitPredicate? || s.consumer.WaitEntering?
  {
    match s.owner.value
    case TheProducer =>
    case TheConsumer =>
  }

  // ---- every interleaving

  predicate IsRun(states: seq<State>, actions: seq<Action>) {
    && |states| == |actions| + 1
    && states[0] == InitialState
    && forall i :: 0 <= i < |actions| ==> Next(states[i], actions[i]) == Some(states[i + 1])
  }

  lemma {:induction false} EveryStateIsSound(states: seq<State>, actions: seq<Action>, i: nat)
    requires IsRun(states, actions) && i < |states|
    ensures Inv(states[i])
    decreases i
  {
    if i > 0 {
      EveryStateIsSound(states, actions, i - 1);
      assert Next(states[i - 1], actions[i - 1]) == Some(states[i - 1 + 1]);
      StepKeepsInv(states[i - 1], actions[i - 1]);
    }
  }

  /** Every action touches the frame, and no action can happen once the frame is destroyed. */
  lemma FrameIsNeverTouchedAfterDestruction(states: seq<State>, actions: seq<Action>, i: nat, a: Action)
    requires IsRun(states, actions) && i < |states| && Next(states[i], a).Some?
    ensures states[i].destroyed == 0
  {
    EveryStateIsSound(states, actions, i);
  }

  /** The result is read only after it was stored and completion was published. */
  lemma ResultIsReadAfterPublication(states: seq<State>, actions: seq<Action>, i: nat)
    requires IsRun(states, actions) && i < |actions| && states[i + 1].read != states[i].read
    ensures states[i].stored && states[i].word == Completed && states[i].read == 0
  {
    EveryStateIsSound(states, actions, i);
  }

  /** The block that `publish` dereferences exists whenever `publish` takes its mutex. */
  lemma BlockExistsWhenNotified(states: seq<State>, actions: seq<Action>, i: nat)
    requires IsRun(states, actions) && i < |states|
    requires states[i].producer.Locking? || states[i].producer.Notifying? || states[i].producer.Unlocking?
    ensures states[i].block && states[i].references >= 1 && states[i].destroyed == 0
  {
    EveryStateIsSound(states, actions, i);
  }

  /** No lost wakeup: completion is never published behind the back of a sleeping consumer. */
  lemma SleeperIsNotified(states: seq<State>, actions: seq<Action>, i: nat)
    requires IsRun(states, actions) && i < |states| && states[i].consumer.Asleep?
    ensures !Published(states[i]) || states[i].producer.Locking? || states[i].producer.Notifying?
  {
    EveryStateIsSound(states, actions, i);
  }

  // ---- progress

  predicate Settled(s: State) {
    s.producer.Finished? && s.consumer.Done?
  }

  /** No deadlock: until both parties are done, one of them can take a step of its own. */
  lemma SomebodyCanMove(states: seq<State>, actions: seq<Action>, i: nat)
    requires IsRun(states, actions) && i < |states| && !Settled(states[i])
    ensures Next(states[i], Produce).Some? || Next(states[i], Consume).Some? || Next(states[i], Drop).Some?
  {
    EveryStateIsSound(states, actions, i);
    if states[i].owner.Some? { OwnerIsBusy(states[i]); }
  }

  function ProducerRank(p: Producer): nat {
    match p
    case Running => 9
    case Stored => 8
    case Resuming => 6
    case Locking => 7
    case Notifying => 6
    case Unlocking => 5
    case Releasing => 4
    case CheckingDone => 3
    case Destroying => 2
    case Finished => 0
  }

  function ConsumerRank(s: State): nat {
    match s.consumer
    case HasTask => 30
    case WaitLoading => 29
    case WaitTesting(current) => if current == Unclaimed then (if s.word == Unclaimed then 28 else 24) else 20
    case WaitAllocating => if s.word == Unclaimed then 27 else 23
    case WaitClaiming => if s.word == Unclaimed then 26 else 22
    case WaitLocking => 18
    case WaitPredicate => 16
    case WaitEntering => 15
    case Asleep => 14
    case Woken => 17
    case ReadyTesting => 28
    case Claiming => 27
    case Suspended => 14
    case Reading => 13
    case Dropping => 8
    case CheckingLast => 7
    case DestroyingFrame => 6
    case Done => 0
  }

  function Rank(s: State): nat {
    10 * ProducerRank(s.producer) + ConsumerRank(s)
  }

  lemma ProducerDescends(s: State)
    requires Inv(s) && ProducerStep(s).Some?
    ensures Rank(ProducerStep(s).value) < Rank(s)
  {}

  lemma ConsumerDescends(s: State)
    requires Inv(s) && ConsumerStep(s).Some?
    ensures Rank(ConsumerStep(s).value) < Rank(s)
  {}

  lemma StepsTerminate(s: State, a: Action)
    requires Inv(s) && Next(s, a).Some?
    ensures a.Spurious? ==> Rank(Next(s, a).value) == Rank(s) + 3
    ensures a.Poll? ==> Next(s, a).value == s
    ensures !a.Spurious? && !a.Poll? ==> Rank(Next(s, a).value) < Rank(s)
  {
    if a.Produce? { ProducerDescends(s); }
    if a.Consume? { ConsumerDescends(s); }
  }

  function Spurious(actions: seq<Action>): nat {
    if actions == [] then 0 else Spurious(actions[..|actions| - 1]) + if actions[|actions| - 1].Spurious? then 1 else 0
  }

  function Moves(actions: seq<Action>): nat {
    if actions == [] then 0
    else Moves(actions[..|actions| - 1]) + if actions[|actions| - 1].Spurious? || actions[|actions| - 1].Poll? then 0 else 1
  }

  /** Every run is short: its own steps are bounded, whatever the interleaving. Together with
      `SomebodyCanMove`, a run that keeps moving ends with both parties done. */
  lemma {:induction false} RunsAreBounded(states: seq<State>, actions: seq<Action>)
    requires IsRun(states, actions)
    ensures Moves(actions) + Rank(states[|actions|]) <= Rank(InitialState) + 3 * Spurious(actions)
    decreases |actions|
  {
    var n := |actions|;
    if n > 0 {
      RunsAreBounded(states[..n], actions[..n - 1]);
      EveryStateIsSound(states, actions, n - 1);
      assert Next(states[n - 1], actions[n - 1]) == Some(states[n - 1 + 1]);
      StepsTerminate(states[n - 1], actions[n - 1]);
    }
  }

  // ---- what the consumer gets

  predicate IsChoice(a: Action) {
    a.Drop? || a.Get? || a.Await?
  }

  /** What the consumer has chosen to do with its task. */
  function Choice(actions: seq<Action>): Option<Action> {
    if actions == [] then None
    else if IsChoice(actions[|actions| - 1]) then Some(actions[|actions| - 1])
    else Choice(actions[..|actions| - 1])
  }

  predicate PastReading(s: State) {
    s.consumer.Dropping? || ConsumerReleased(s)
  }

  /** Inside `get`. */
  predicate Blocking(s: State) {
    match s.consumer
    case WaitLoading => true
    case _ => MayBeParked(s) || (s.consumer.WaitTesting? && s.consumer.current == Completed)
  }

  /** Inside `co_await`. */
  predicate Awaiting(s: State) {
    s.consumer.ReadyTesting? || s.consumer.Claiming? || s.consumer.Suspended?
  }

  /** Where the consumer is, and what it has read, by its choice. */
  predicate Follows(s: State, choice: Option<Action>) {
    match choice
    case None => s.consumer.HasTask? && s.read == 0 && !s.claimed
    case Some(Drop) => PastReading(s) && s.read == 0 && !s.claimed
    case Some(Get) => (Blocking(s) || s.consumer.Reading? || PastReading(s)) && s.read == (if PastReading(s) then 1 else 0) && !s.claimed
    case Some(Await) => (Awaiting(s) || s.consumer.Reading? || PastReading(s)) && s.read == (if PastReading(s) then 1 else 0)
    case Some(_) => false
  }

  lemma ChoiceStep(actions: seq<Action>, a: Action)
    ensures Choice(actions + [a]) == if IsChoice(a) then Some(a) else Choice(actions)
  {
    assert (actions + [a])[..|actions|] == actions;
  }

  lemma FollowsStep(s: State, choice: Option<Action>, a: Action)
    requires Inv(s) && Follows(s, choice) && Next(s, a).Some?
    ensures Follows(Next(s, a).value, if IsChoice(a) then Some(a) else choice)
  {
    hide References, Resumption, MutexSound, WakePending;
  }

  lemma {:induction false} EveryStateFollows(states: seq<State>, actions: seq<Action>)
    requires IsRun(states, actions)
    ensures Follows(states[|actions|], Choice(actions))
    decreases |actions|
  {
    var n := |actions|;
    if n > 0 {
      EveryStateIsSound(states, actions, n - 1);
      assert Next(states[n - 1], actions[n - 1]) == Some(states[n - 1 + 1]);
      EveryStateFollows(states[..n], actions[..n - 1]);
      assert actions == actions[..n - 1] + [actions[n - 1]];
      ChoiceStep(actions[..n - 1], actions[n - 1]);
      FollowsStep(states[n - 1], Choice(actions[..n - 1]), actions[n - 1]);
    }
  }

  /** At the end a consumer that blocked or awaited has read the result, once, and one that dropped the task has not. */
  lemma ResultIsDelivered(states: seq<State>, actions: seq<Action>)
    requires IsRun(states, actions) && Settled(states[|actions|])
    ensures Choice(actions).Some?
    ensures states[|actions|].read == if Choice(actions) == Some(Drop) then 0 else 1
    ensures states[|actions|].claimed ==> Choice(actions) == Some(Await)
  {
    EveryStateFollows(states, actions);
  }

  /** When both parties are done, the frame was destroyed exactly once, and a registered continuation
      was resumed exactly once. */
  lemma SettledRuns(states: seq<State>, actions: seq<Action>, i: nat)
    requires IsRun(states, actions) && i < |states| && Settled(states[i])
    ensures states[i].destroyed == 1 && states[i].references == 0 && states[i].owner == None
    ensures states[i].resumed == (if states[i].claimed then 1 else 0)
  {
    EveryStateIsSound(states, actions, i);
    if states[i].owner.Some? { OwnerIsBusy(states[i]); }
  }

  /** The reference count alone decides who destroys the frame: the last party always finds completion published. */
  lemma LastReleaseFindsCompletion(states: seq<State>, actions: seq<Action>, i: nat)
    requires IsRun(states, actions) && i < |states|
    requires states[i].producer.CheckingDone? || states[i].consumer.CheckingLast?
    ensures states[i].word == Completed
  {
    EveryStateIsSound(states, actions, i);
  }
}
