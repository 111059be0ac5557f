/** Operations kept apart in time: Common/Common/OneOperationWaitingScheduler.swift. Callers, the queue's worker and
    the clock interleave freely. */
module WaitingScheduler {
  import opened Outcomes

  type Time = real
  type Caller = nat

  /** Where the operation at the front of the queue stands. */
  datatype Phase = Idle | Waiting(until: Time) | Executing(start: Time) | Ending

  datatype Execution = Execution(start: Time, end: Time)

  /** `operations` counts the queued operations, the running one included; `passed` are the callers between
      finding the queue empty and adding to it. */
  datatype State = State(
    clock: Time, lastExecutionDate: Option<Time>, operations: nat, passed: set<Caller>, phase: Phase,
    log: seq<Execution>)

  datatype Action =
    | Tick(time: Time) | Check(caller: Caller) | Enqueue(caller: Caller)
    | Begin | StartBlock | EndBlock | Record

  function Delay(interval: Time, last: Option<Time>, now: Time): Time {
    if last.None? then 0.0
    else if interval - (now - last.value) > 0.0 then interval - (now - last.value)
    else 0.0
  }

  predicate Enabled(s: State, a: Action) {
    match a
    case Tick(time) => time >= s.clock
    case Check(caller) => caller !in s.passed && s.operations == 0
    case Enqueue(caller) => caller in s.passed
    case Begin => s.phase.Idle? && s.operations > 0
    case StartBlock => s.phase.Waiting? && s.clock >= s.phase.until
    case EndBlock => s.phase.Executing?
    case Record => s.phase.Ending? && s.operations > 0
  }

  function Next(interval: Time, s: State, a: Action): State
    requires Enabled(s, a)
  {
    match a
    case Tick(time) => s.(clock := time)
    case Check(caller) => s.(passed := s.passed + {caller})
    case Enqueue(caller) => s.(passed := s.passed - {caller}, operations := s.operations + 1)
    case Begin => s.(phase := Waiting(s.clock + Delay(interval, s.lastExecutionDate, s.clock)))
    case StartBlock => s.(phase := Executing(s.clock))
    case EndBlock => s.(phase := Ending, log := s.log + [Execution(s.phase.start, s.clock)])
    case Record => s.(phase := Idle, lastExecutionDate := Some(s.clock), operations := s.operations - 1)
  }

  function Initial(clock: Time): State {
    State(clock, None, 0, {}, Idle, [])
  }

  /** A run is a sequence of actions, each enabled where it happens. */
  ghost predicate IsRun(interval: Time, start: Time, actions: seq<Action>, states: seq<State>) {
    && |states| == |actions| + 1 && states[0] == Initial(start)
    && forall i | 0 <= i < |actions| ::
         Enabled(states[i], actions[i]) && states[i + 1] == Next(interval, states[i], actions[i])
  }

  // ----- The operation itself -----

  class Scheduler {
    const interval: Time
    var lastExecutionDate: Option<Time>

    constructor (interval: Time)
      ensures this.interval == interval && lastExecutionDate == None
    {
      this.interval, lastExecutionDate := interval, None;
    }

    /** One queued operation that reads the clock at `now` and records the end of its block at `recorded`: the
        wait it asks for is the machine's, the shortest that keeps the interval. */
    method Operation(now: Time, recorded: Time) returns (delay: Time)
      modifies this
      ensures delay == Delay(interval, old(lastExecutionDate), now)
      ensures old(lastExecutionDate).Some? ==> now + delay >= old(lastExecutionDate).value + interval
      ensures delay > 0.0 ==> old(lastExecutionDate).Some? && now + delay == old(lastExecutionDate).value + interval
      ensures lastExecutionDate == Some(recorded)
    {
      delay := 0.0;
      if lastExecutionDate.Some? {
        var rest := interval - (now - lastExecutionDate.value);
        delay := if delay > rest then delay else rest;
      }
      lastExecutionDate := Some(recorded);
    }
  }

  // ----- Over every run -----

  predicate SpacedLog(interval: Time, log: seq<Execution>) {
    forall i | 1 <= i < |log| :: log[i].start >= log[i - 1].end + interval
  }

  /** The end of the last block, as a lower bound for the next start. */
  predicate Apart(interval: Time, log: seq<Execution>, start: Time) {
    log != [] ==> start >= log[|log| - 1].end + interval
  }

  predicate Inv(interval: Time, s: State) {
    && SpacedLog(interval, s.log)
    && (s.log != [] ==> s.log[|s.log| - 1].end <= s.clock)
    && (s.phase.Idle? && s.log != [] ==> s.lastExecutionDate.Some? &&
                                         s.log[|s.log| - 1].end <= s.lastExecutionDate.value <= s.clock)
    && (s.phase.Waiting? ==> Apart(interval, s.log, s.phase.until))
    && (s.phase.Executing? ==> Apart(interval, s.log, s.phase.start) && s.phase.start <= s.clock)
    && (!s.phase.Idle? ==> s.operations > 0)
  }

  lemma NextInv(interval: Time, s: State, a: Action)
    requires Inv(interval, s) && Enabled(s, a)
    ensures Inv(interval, Next(interval, s, a))
  {}

  lemma {:induction false} RunInv(interval: Time, start: Time, actions: seq<Action>, states: seq<State>, k: nat)
    requires IsRun(interval, start, actions, states) && k < |states|
    ensures Inv(interval, states[k])
  {
    if k > 0 {
      RunInv(interval, start, actions, states, k - 1);
      NextInv(interval, states[k - 1], actions[k - 1]);
    }
  }

  /** In every interleaving each block starts at least one interval after the previous one ended. */
  lemma BlocksAreSpaced(interval: Time, start: Time, actions: seq<Action>, states: seq<State>, i: nat)
    requires IsRun(interval, start, actions, states) && 1 <= i < |states[|actions|].log|
    ensures var log := states[|actions|].log; log[i].start >= log[i - 1].end + interval
  {
    RunInv(interval, start, actions, states, |actions|);
  }

  /** No caller checks the queue while another is about to add to it. */
  predicate ChecksAreAtomic(actions: seq<Action>, states: seq<State>)
    requires |states| == |actions| + 1
  {
    forall i | 0 <= i < |actions| && actions[i].Check? :: states[i].passed == {}
  }

  /** Without overlapping checks there is at most one operation, queued or running. */
  lemma {:induction false} AtMostOneOperation(
    interval: Time, start: Time, actions: seq<Action>, states: seq<State>, k: nat)
    requires IsRun(interval, start, actions, states) && ChecksAreAtomic(actions, states) && k < |states|
    ensures states[k].operations + |states[k].passed| <= 1
  {
    if k > 0 {
      AtMostOneOperation(interval, start, actions, states, k - 1);
    }
  }

  /** And only then: in a run there is never more than one operation, queued or about to be, exactly when no
      caller checks the queue while another is about to add to it. */
  lemma OneOperationIff(interval: Time, start: Time, actions: seq<Action>, states: seq<State>)
    requires IsRun(interval, start, actions, states)
    ensures ChecksAreAtomic(actions, states) <==>
            forall k | 0 <= k < |states| :: states[k].operations + |states[k].passed| <= 1
  {
    if ChecksAreAtomic(actions, states) {
      forall k | 0 <= k < |states| ensures states[k].operations + |states[k].passed| <= 1 {
        AtMostOneOperation(interval, start, actions, states, k);
      }
    } else {
      var i :| 0 <= i < |actions| && actions[i].Check? && states[i].passed != {};
      assert states[i + 1].passed == states[i].passed + {actions[i].caller};
    }
  }

  ghost predicate Extends(longer: seq<Action>, actions: seq<Action>) {
    actions <= longer
  }

  /** Whenever checks overlap, going on by letting both callers add queues two operations. */
  lemma OverlapQueuesTwo(interval: Time, start: Time, actions: seq<Action>, states: seq<State>, i: nat)
    requires IsRun(interval, start, actions, states) && i < |actions|
    requires actions[i].Check? && states[i].passed != {}
    ensures exists longer: seq<Action>, reached: seq<State> ::
              Extends(longer, actions[..i + 1]) && IsRun(interval, start, longer, reached) &&
              reached[|longer|].operations == 2
  {
    var first :| first in states[i].passed;
    var second := actions[i].caller;
    var s0 := states[i + 1];
    assert s0.passed == states[i].passed + {second} && s0.operations == 0;
    var s1 := Next(interval, s0, Enqueue(first));
    var s2 := Next(interval, s1, Enqueue(second));
    var longer := actions[..i + 1] + [Enqueue(first), Enqueue(second)];
    var reached := states[..i + 2] + [s1, s2];
    assert IsRun(interval, start, longer, reached);
    assert Extends(longer, actions[..i + 1]) && reached[|longer|] == s2;
  }

  /** Two callers that both find the queue empty both add to it. */
  lemma RaceQueuesTwo(interval: Time)
    ensures exists actions: seq<Action>, states: seq<State> ::
              IsRun(interval, 0.0, actions, states) && states[|actions|].operations == 2
  {
    var s0 := Initial(0.0);
    var s1 := Next(interval, s0, Check(1));
    var s2 := Next(interval, s1, Check(2));
    var s3 := Next(interval, s2, Enqueue(1));
    var s4 := Next(interval, s3, Enqueue(2));
    var actions := [Check(1), Check(2), Enqueue(1), Enqueue(2)];
    var states := [s0, s1, s2, s3, s4];
    assert IsRun(interval, 0.0, actions, states);
    assert states[|actions|].operations == 2;
  }

  // ----- Operations do run -----

  /** The state a list of actions leads to, if each is enabled where it happens. */
  function After(interval: Time, s: State, actions: seq<Action>): Option<State> {
    if actions == [] then Some(s)
    else
      var n := |actions| - 1;
      var before := After(interval, s, actions[..n]);
      if before.Some? && Enabled(before.value, actions[n]) then Some(Next(interval, before.value, actions[n])) else None
  }

  lemma AfterSnoc(interval: Time, s: State, actions: seq<Action>, a: Action)
    ensures After(interval, s, actions + [a]) ==
            (var before := After(interval, s, actions);
             if before.Some? && Enabled(before.value, a) then Some(Next(interval, before.value, a)) else None)
  {
    assert (actions + [a])[..|actions|] == actions;
  }

  lemma {:induction false} AfterIsRun(interval: Time, start: Time, actions: seq<Action>) returns (states: seq<State>)
    requires After(interval, Initial(start), actions).Some?
    ensures IsRun(interval, start, actions, states)
    ensures states[|actions|] == After(interval, Initial(start), actions).value
  {
    if actions == [] {
      return [Initial(start)];
    }
    var n := |actions| - 1;
    var before := AfterIsRun(interval, start, actions[..n]);
    states := before + [After(interval, Initial(start), actions).value];
  }

  /** One caller's whole operation: check, add, wait until `t`, run the block, record. */
  function Round(caller: Caller, t: Time): seq<Action> {
    [Check(caller), Enqueue(caller), Begin, Tick(t), StartBlock, EndBlock, Record]
  }

  /** With nothing queued, an operation can be scheduled, and its block starts as soon as the delay allows. */
  lemma RoundCompletes(interval: Time, s: State, actions: seq<Action>, from: State, caller: Caller)
    requires After(interval, from, actions) == Some(s)
    requires s.phase.Idle? && s.operations == 0 && s.passed == {}
    ensures var t := s.clock + Delay(interval, s.lastExecutionDate, s.clock);
      After(interval, from, actions + Round(caller, t)) ==
      Some(s.(clock := t, lastExecutionDate := Some(t), log := s.log + [Execution(t, t)]))
  {
    hide After;
    var t := s.clock + Delay(interval, s.lastExecutionDate, s.clock);
    var a1 := actions + [Check(caller)];
    var a2 := a1 + [Enqueue(caller)];
    var a3 := a2 + [Begin];
    var a4 := a3 + [Tick(t)];
    var a5 := a4 + [StartBlock];
    var a6 := a5 + [EndBlock];
    AfterSnoc(interval, from, actions, Check(caller));
    AfterSnoc(interval, from, a1, Enqueue(caller));
    AfterSnoc(interval, from, a2, Begin);
    AfterSnoc(interval, from, a3, Tick(t));
    AfterSnoc(interval, from, a4, StartBlock);
    AfterSnoc(interval, from, a5, EndBlock);
    AfterSnoc(interval, from, a6, Record);
    assert actions + Round(caller, t) == a6 + [Record];
    assert s.passed + {caller} - {caller} == {};
  }

  /** Two operations one after the other: the second block starts exactly one interval after the first ended. */
  lemma TwoBlocksRun(interval: Time)
    requires interval >= 0.0
    ensures exists actions: seq<Action>, states: seq<State> ::
              IsRun(interval, 0.0, actions, states) &&
              states[|actions|].log == [Execution(0.0, 0.0), Execution(interval, interval)]
  {
    var s0 := Initial(0.0);
    RoundCompletes(interval, s0, [], s0, 1);
    var one := [] + Round(1, 0.0);
    var s1 := After(interval, s0, one).value;
    RoundCompletes(interval, s1, one, s0, 1);
    var actions := one + Round(1, interval);
    var states := AfterIsRun(interval, 0.0, actions);
    assert states[|actions|].log == [] + [Execution(0.0, 0.0)] + [Execution(interval, interval)];
  }
}
