/** Authenticated sessions: IdentityAccess/IdentityAccessDomainModel/Gatekeeper/Session.swift. */
module Sessions {
  import opened Outcomes

  /** Moments and durations, in seconds. */
  type Time = real

  datatype SessionError = SessionWasActiveAlready | SessionIsNotActive | SessionWasFinishedAlready

  /** How a throwing call without a result ends. */
  datatype Reply = Done | Threw(error: SessionError) | Trapped

  datatype SessionState = SessionState(
    id: string, duration: Time, startedAt: Option<Time>, endedAt: Option<Time>, updatedAt: Option<Time>)

  function NewSession(id: string, duration: Time): SessionState {
    SessionState(id, duration, None, None, None)
  }

  function LastUse(s: SessionState): Time
    requires s.startedAt.Some?
  {
    if s.updatedAt.Some? then s.updatedAt.value else s.startedAt.value
  }

  /** `isActiveAt`: building the range from start to end traps when it is inverted. */
  function IsActiveAt(s: SessionState, time: Time): Outcome<bool> {
    if s.endedAt.Some? || s.startedAt.None? then Returns(false)
    else if s.startedAt.value > LastUse(s) + s.duration then Traps
    else Returns(s.startedAt.value <= time <= LastUse(s) + s.duration)
  }

  /** The start-to-end range is not inverted. */
  predicate Sound(s: SessionState) {
    s.duration > 0.0 && (s.startedAt.Some? ==> s.startedAt.value <= LastUse(s) + s.duration)
  }

  function Started(s: SessionState, time: Time): (SessionState, Reply) {
    if s.endedAt.Some? then (s, Threw(SessionWasFinishedAlready))
    else
      match IsActiveAt(s, time)
      case Traps => (s, Trapped)
      case Returns(active) =>
        if active then (s, Threw(SessionWasActiveAlready)) else (s.(startedAt := Some(time)), Done)
  }

  function Finished(s: SessionState, time: Time): (SessionState, Reply) {
    match IsActiveAt(s, time)
    case Traps => (s, Trapped)
    case Returns(active) => if active then (s.(endedAt := Some(time)), Done) else (s, Threw(SessionIsNotActive))
  }

  function Renewed(s: SessionState, time: Time): (SessionState, Reply) {
    match IsActiveAt(s, time)
    case Traps => (s, Trapped)
    case Returns(active) => if active then (s.(updatedAt := Some(time)), Done) else (s, Threw(SessionIsNotActive))
  }

  class Session {
    const id: string
    const duration: Time
    var startedAt: Option<Time>
    var endedAt: Option<Time>
    var updatedAt: Option<Time>

    ghost function State(): SessionState
      reads this
    {
      SessionState(id, duration, startedAt, endedAt, updatedAt)
    }

    constructor (id: string, duration: Time)
      requires duration > 0.0
      ensures State() == NewSession(id, duration)
    {
      this.id, this.duration := id, duration;
      startedAt, endedAt, updatedAt := None, None, None;
    }

    /** The throwing initialiser: no session for a duration that is not positive. */
    static method Create(id: string, duration: Time) returns (r: Session?)
      ensures r == null <==> duration <= 0.0
      ensures r != null ==> fresh(r) && r.State() == NewSession(id, duration)
    {
      if duration <= 0.0 {
        return null;
      }
      r := new Session(id, duration);
    }

    method CheckActive(time: Time) returns (r: Outcome<bool>)
      ensures r == IsActiveAt(State(), time)
    {
      if endedAt.Some? || startedAt.None? {
        return Returns(false);
      }
      var startTime := startedAt.value;
      var endTime := (if updatedAt.Some? then updatedAt.value else startTime) + duration;
      if startTime > endTime {
        return Traps;
      }
      return Returns(startTime <= time <= endTime);
    }

    method Start(time: Time) returns (r: Reply)
      modifies this
      ensures (State(), r) == Started(old(State()), time)
    {
      if endedAt.Some? {
        return Threw(SessionWasFinishedAlready);
      }
      var active := CheckActive(time);
      if active.Traps? {
        return Trapped;
      }
      if active.value {
        return Threw(SessionWasActiveAlready);
      }
      startedAt := Some(time);
      return Done;
    }

    method Finish(time: Time) returns (r: Reply)
      modifies this
      ensures (State(), r) == Finished(old(State()), time)
    {
      var active := CheckActive(time);
      if active.Traps? {
        return Trapped;
      }
      if !active.value {
        return Threw(SessionIsNotActive);
      }
      endedAt := Some(time);
      return Done;
    }

    method Renew(time: Time) returns (r: Reply)
      modifies this
      ensures (State(), r) == Renewed(old(State()), time)
    {
      var active := CheckActive(time);
      if active.Traps? {
        return Trapped;
      }
      if !active.value {
        return Threw(SessionIsNotActive);
      }
      updatedAt := Some(time);
      return Done;
    }
  }

  // ----- Runs of one session -----

  datatype Call = Start(time: Time) | Finish(time: Time) | Renew(time: Time)

  function Apply(s: SessionState, call: Call): (SessionState, Reply) {
    match call
    case Start(time) => Started(s, time)
    case Finish(time) => Finished(s, time)
    case Renew(time) => Renewed(s, time)
  }

  function ApplyAll(s: SessionState, calls: seq<Call>): SessionState {
    if calls == [] then s else Apply(ApplyAll(s, calls[..|calls| - 1]), calls[|calls| - 1]).0
  }

  /** A call keeps the range in order exactly when it is not a restart past the end of a renewed session. */
  lemma KeepsRange(s: SessionState, call: Call)
    requires Sound(s)
    ensures Apply(s, call).1 != Trapped
    ensures Sound(Apply(s, call).0) <==>
            !(call.Start? && s.endedAt.None? && s.updatedAt.Some? && s.updatedAt.value + s.duration < call.time)
  {}

  predicate StartsOnce(calls: seq<Call>) {
    forall i | 1 <= i < |calls| :: !calls[i].Start?
  }

  /** A session that is started once and then only renewed or finished never has an inverted range. */
  lemma {:induction false} RangeInOrder(id: string, duration: Time, calls: seq<Call>)
    requires duration > 0.0 && StartsOnce(calls)
    ensures Sound(ApplyAll(NewSession(id, duration), calls))
    ensures calls == [] ==> ApplyAll(NewSession(id, duration), calls) == NewSession(id, duration)
  {
    if calls != [] {
      var init := calls[..|calls| - 1];
      RangeInOrder(id, duration, init);
      KeepsRange(ApplyAll(NewSession(id, duration), init), calls[|calls| - 1]);
    }
  }

  /** Start, renew, let it expire and start again: the next query traps. */
  lemma RestartInvertsRange()
    ensures var s := ApplyAll(NewSession("s", 10.0), [Start(0.0), Renew(5.0), Start(100.0)]);
      IsActiveAt(s, 100.0) == Traps
  {
    var calls := [Start(0.0), Renew(5.0), Start(100.0)];
    var s := NewSession("s", 10.0);
    assert calls[..2] == [Start(0.0), Renew(5.0)] && calls[..2][..1] == [Start(0.0)] && calls[..2][..1][..0] == [];
    assert ApplyAll(s, calls[..2][..1]) == s.(startedAt := Some(0.0));
    assert ApplyAll(s, calls[..2]) == s.(startedAt := Some(0.0), updatedAt := Some(5.0));
    assert ApplyAll(s, calls) == s.(startedAt := Some(100.0), updatedAt := Some(5.0));
  }

  /** Once a session was finished nothing brings it back: it is active at no time, and every call throws and
      changes nothing. */
  lemma {:induction false} FinishedIsFinal(s: SessionState, finish: Call, calls: seq<Call>, time: Time)
    requires finish.Finish? && Apply(s, finish).1 == Done
    ensures var ended := Apply(s, finish).0;
      && ApplyAll(ended, calls) == ended && IsActiveAt(ended, time) == Returns(false)
      && Apply(ended, Start(time)) == (ended, Threw(SessionWasFinishedAlready))
      && Apply(ended, Finish(time)) == (ended, Threw(SessionIsNotActive))
      && Apply(ended, Renew(time)) == (ended, Threw(SessionIsNotActive))
  {
    if calls != [] {
      FinishedIsFinal(s, finish, calls[..|calls| - 1], time);
    }
  }

  /** A renewal at t moves the end to one duration after t, and only while the session is active. */
  lemma RenewalMovesEnd(s: SessionState, t: Time, time: Time)
    requires Sound(s) && s.startedAt.Some? && s.endedAt.None?
    ensures var (renewed, reply) := Apply(s, Renew(t));
      && (reply == Done <==> IsActiveAt(s, t) == Returns(true))
      && (reply == Done ==> IsActiveAt(renewed, time) == Returns(s.startedAt.value <= time <= t + s.duration))
      && (reply != Done ==> renewed == s)
  {}

  /** A started session is active for one duration, and cannot be started again meanwhile. */
  lemma StartedRuns(id: string, duration: Time, t: Time, time: Time)
    requires duration > 0.0
    ensures var (s, reply) := Apply(NewSession(id, duration), Start(t));
      && reply == Done && IsActiveAt(s, time) == Returns(t <= time <= t + duration)
      && (t <= time <= t + duration ==> Apply(s, Start(time)) == (s, Threw(SessionWasActiveAlready)))
    ensures IsActiveAt(NewSession(id, duration), time) == Returns(false)
  {}
}
