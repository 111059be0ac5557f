/** Access control with blocking: IdentityAccess/IdentityAccessDomainModel/Gatekeeper/Gatekeeper.swift and
    AuthenticationPolicy.swift beside it. */
module Gatekeepers {
  import opened Outcomes
  import opened Sessions

  // ----- Policy -----

  datatype PolicyError =
    SessionDurationMustBePositive | MaxFailedAttemptsMustBePositive | BlockDurationMustBeNonNegative

  datatype Policy = Policy(sessionDuration: Time, maxFailedAttempts: int, blockDuration: Time) {
    predicate Valid() {
      sessionDuration > 0.0 && maxFailedAttempts > 0 && blockDuration >= 0.0
    }
  }

  /** The validating initialiser: the first violated bound is the error. */
  function MakePolicy(sessionDuration: Time, maxFailedAttempts: int, blockDuration: Time)
    : (r: Result<Policy, PolicyError>)
    ensures r.Success? <==> Policy(sessionDuration, maxFailedAttempts, blockDuration).Valid()
    ensures r.Success? ==> r.value == Policy(sessionDuration, maxFailedAttempts, blockDuration)
    ensures r == Failure(SessionDurationMustBePositive) <==> sessionDuration <= 0.0
    ensures r == Failure(BlockDurationMustBeNonNegative) ==> sessionDuration > 0.0 && maxFailedAttempts > 0
    ensures r == Failure(MaxFailedAttemptsMustBePositive) <==> sessionDuration > 0.0 && maxFailedAttempts <= 0
  {
    if sessionDuration <= 0.0 then Failure(SessionDurationMustBePositive)
    else if maxFailedAttempts <= 0 then Failure(MaxFailedAttemptsMustBePositive)
    else if blockDuration < 0.0 then Failure(BlockDurationMustBeNonNegative)
    else Success(Policy(sessionDuration, maxFailedAttempts, blockDuration))
  }

  datatype Change = SessionDuration(duration: Time) | MaxFailedAttempts(count: int) | BlockDuration(duration: Time)

  /** The `with…` copies. */
  function WithChange(policy: Policy, change: Change): Result<Policy, PolicyError> {
    match change
    case SessionDuration(d) => MakePolicy(d, policy.maxFailedAttempts, policy.blockDuration)
    case MaxFailedAttempts(n) => MakePolicy(policy.sessionDuration, n, policy.blockDuration)
    case BlockDuration(d) => MakePolicy(policy.sessionDuration, policy.maxFailedAttempts, d)
  }

  /** A copy differs in the one value, and fails exactly when that value is out of bounds. */
  lemma ChangeFacts(policy: Policy, change: Change)
    requires policy.Valid()
    ensures change.SessionDuration? ==>
              WithChange(policy, change) == if change.duration <= 0.0 then Failure(SessionDurationMustBePositive)
                                            else Success(policy.(sessionDuration := change.duration))
    ensures change.MaxFailedAttempts? ==>
              WithChange(policy, change) == if change.count <= 0 then Failure(MaxFailedAttemptsMustBePositive)
                                            else Success(policy.(maxFailedAttempts := change.count))
    ensures change.BlockDuration? ==>
              WithChange(policy, change) == if change.duration < 0.0 then Failure(BlockDurationMustBeNonNegative)
                                            else Success(policy.(blockDuration := change.duration))
  {}

  // ----- State -----

  datatype GatekeeperState = GatekeeperState(
    policy: Policy, session: Option<SessionState>, failedAttemptCount: int, accessDeniedAt: Option<Time>)

  function NewGatekeeper(policy: Policy): GatekeeperState {
    GatekeeperState(policy, None, 0, None)
  }

  function IsAccessPossible(g: GatekeeperState, time: Time): bool {
    if g.accessDeniedAt.None? then true
    else g.failedAttemptCount < g.policy.maxFailedAttempts || time >= g.accessDeniedAt.value + g.policy.blockDuration
  }

  /** The state after access was allowed: a session just started, no failures remembered. */
  function Allowed(g: GatekeeperState, time: Time, id: string): GatekeeperState {
    GatekeeperState(g.policy, Some(SessionState(id, g.policy.sessionDuration, Some(time), None, None)), 0, None)
  }

  function Denied(g: GatekeeperState, time: Time): GatekeeperState {
    GatekeeperState(g.policy, None, g.failedAttemptCount + 1, Some(time))
  }

  function Cleared(g: GatekeeperState): GatekeeperState {
    GatekeeperState(g.policy, None, 0, None)
  }

  datatype UseReply = Used | Blocked | NotActive | Crashed

  /** `useAccess`: without a session there is nothing to renew. */
  function UseAccess(g: GatekeeperState, time: Time): (GatekeeperState, UseReply) {
    if !IsAccessPossible(g, time) then (g, Blocked)
    else if g.session.None? then (g, Used)
    else
      var (s, reply) := Renewed(g.session.value, time);
      match reply
      case Done => (g.(session := Some(s)), Used)
      case Threw(_) => (g, NotActive)
      case Trapped => (g, Crashed)
  }

  function HasAccess(g: GatekeeperState, id: string, time: Time): Outcome<bool> {
    if g.session.None? || g.session.value.id != id then Returns(false) else IsActiveAt(g.session.value, time)
  }

  function ChangedPolicy(g: GatekeeperState, change: Change): (GatekeeperState, Option<PolicyError>) {
    match WithChange(g.policy, change)
    case Success(policy) => (Cleared(g.(policy := policy)), None)
    case Failure(error) => (g, Some(error))
  }

  // ----- The entity -----

  class Gatekeeper {
    var policy: Policy
    var session: Session?
    var failedAttemptCount: int
    var accessDeniedAt: Option<Time>

    ghost function State(): GatekeeperState
      reads this, session
    {
      GatekeeperState(policy, if session == null then None else Some(session.State()),
                      failedAttemptCount, accessDeniedAt)
    }

    constructor (policy: Policy)
      requires policy.Valid()
      ensures State() == NewGatekeeper(policy) && session == null
    {
      this.policy, session, failedAttemptCount, accessDeniedAt := policy, null, 0, None;
    }

    method AccessPossible(time: Time) returns (possible: bool)
      ensures possible == IsAccessPossible(State(), time)
    {
      if accessDeniedAt.None? {
        return true;
      }
      var blockLiftTime := accessDeniedAt.value + policy.blockDuration;
      var isBlockPeriodExpired := time >= blockLiftTime;
      var hasMoreAttempts := failedAttemptCount < policy.maxFailedAttempts;
      return hasMoreAttempts || isBlockPeriodExpired;
    }

    /** Throws when access is blocked, and otherwise starts the session named by the fresh identifier. */
    method AllowAccess(time: Time, freshId: string) returns (blocked: bool)
      requires policy.Valid()
      modifies this
      ensures blocked == !IsAccessPossible(old(State()), time)
      ensures State() == if blocked then old(State()) else Allowed(old(State()), time, freshId)
      ensures policy == old(policy) && (session == old(session) || fresh(session))
    {
      var possible := AccessPossible(time);
      if !possible {
        return true;
      }
      var started := Session.Create(freshId, policy.sessionDuration);
      var reply := started.Start(time);
      session := started;
      failedAttemptCount := 0;
      accessDeniedAt := None;
      return false;
    }

    method DenyAccess(time: Time)
      modifies this
      ensures State() == Denied(old(State()), time)
      ensures policy == old(policy) && session == null
    {
      session := null;
      failedAttemptCount := failedAttemptCount + 1;
      accessDeniedAt := Some(time);
    }

    method CheckAccess(id: string, time: Time) returns (r: Outcome<bool>)
      ensures r == HasAccess(State(), id, time)
    {
      if session == null || session.id != id {
        return Returns(false);
      }
      r := session.CheckActive(time);
    }

    method Use(time: Time) returns (r: UseReply)
      modifies session
      ensures (State(), r) == UseAccess(old(State()), time)
    {
      var possible := AccessPossible(time);
      if !possible {
        return Blocked;
      }
      if session == null {
        return Used;
      }
      var reply := session.Renew(time);
      return match reply case Done => Used case Threw(_) => NotActive case Trapped => Crashed;
    }

    method Reset()
      modifies this
      ensures State() == Cleared(old(State()))
      ensures policy == old(policy) && session == null
    {
      session := null;
      failedAttemptCount := 0;
      accessDeniedAt := None;
    }

    /** Setting the policy resets the state. */
    method ChangePolicy(change: Change) returns (error: Option<PolicyError>)
      modifies this
      ensures (State(), error) == ChangedPolicy(old(State()), change)
      ensures session == null || session == old(session)
    {
      var changed := WithChange(policy, change);
      if changed.Failure? {
        return Some(changed.error);
      }
      policy := changed.value;
      Reset();
      return None;
    }
  }

  /** Only the session that was started gives access, and for one duration. */
  lemma AccessAfterAllow(g: GatekeeperState, time: Time, id: string, other: string, later: Time)
    requires g.policy.Valid()
    ensures HasAccess(Allowed(g, time, id), other, later) ==
            Returns(other == id && time <= later <= time + g.policy.sessionDuration)
  {}

  /** Without a session, or with another one, nobody has access. */
  lemma StrangersHaveNoAccess(g: GatekeeperState, id: string, time: Time)
    requires g.session.Some? ==> g.session.value.id != id
    ensures HasAccess(g, id, time) == Returns(false)
  {}
}
