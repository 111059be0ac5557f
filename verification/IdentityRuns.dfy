/** What holds over whole runs of the identity service. */
module IdentityRuns {
  import opened Outcomes
  import opened Sessions
  import opened Gatekeepers
  import opened Identity

  // ----- Authenticated means a successful check, still in use -----

  /** The latest event that decides about authentication: a successful check, with the last time it was
      renewed since, or anything that ends what a check had granted. */
  datatype Latest = Nothing | Ended | Checked(start: Time, renewal: Time)

  function NextLatest(config: Config, s: IdentityState, latest: Latest, e: Event): Latest {
    match e
    case Attempt(credentials, time, _) =>
      if !IsChecked(s, time) then latest
      else if Matches(config, s, credentials) then Checked(time, time)
      else Ended
    case Use(time) =>
      if latest.Checked? && s.gatekeeper.Some? &&
         latest.start <= time <= latest.renewal + s.gatekeeper.value.policy.sessionDuration
      then latest.(renewal := time) else latest
    case Reset => Ended
    case ChangePolicy(change) =>
      if s.gatekeeper.Some? && WithChange(s.gatekeeper.value.policy, change).Success? then Ended else latest
    case CreateGatekeeper(d, n, b) => if MakePolicy(d, n, b).Success? then Ended else latest
    case Register(_) => latest
    case UpdatePassword(password) => if s.user.Some? && config.acceptable(password) then Ended else latest
  }

  function LatestOf(config: Config, events: seq<Event>): Latest {
    if events == [] then Nothing
    else
      var before := events[..|events| - 1];
      NextLatest(config, Run(config, INITIAL, before), LatestOf(config, before), events[|events| - 1])
  }

  /** Whoever holds a session has no failures and no denial on record, and its range is in order. */
  predicate SessionClean(g: GatekeeperState) {
    && g.policy.Valid() && g.failedAttemptCount >= 0
    && (g.session.Some? ==>
          && g.failedAttemptCount == 0 && g.accessDeniedAt.None?
          && g.session.value.startedAt.Some? && g.session.value.endedAt.None?
          && g.session.value.duration == g.policy.sessionDuration
          && g.session.value.startedAt.value <= LastUse(g.session.value))
  }

  predicate Consistent(s: IdentityState, latest: Latest) {
    && (s.gatekeeper.Some? ==> SessionClean(s.gatekeeper.value))
    && (latest.Checked? <==> s.gatekeeper.Some? && s.gatekeeper.value.session.Some? &&
                             s.user.Some? && s.user.value.sessionID.Some?)
    && (latest.Checked? ==>
          var session := s.gatekeeper.value.session.value;
          && s.user.value.sessionID == Some(session.id)
          && session.startedAt == Some(latest.start) && LastUse(session) == latest.renewal)
  }

  lemma StepConsistent(config: Config, s: IdentityState, latest: Latest, e: Event)
    requires Consistent(s, latest)
    ensures Consistent(Step(config, s, e), NextLatest(config, s, latest, e))
  {}

  lemma {:induction false} RunConsistent(config: Config, events: seq<Event>)
    ensures Consistent(Run(config, INITIAL, events), LatestOf(config, events))
  {
    if events != [] {
      var before := events[..|events| - 1];
      RunConsistent(config, before);
      StepConsistent(config, Run(config, INITIAL, before), LatestOf(config, before), events[|events| - 1]);
    }
  }

  /** In every reachable state the query returns, and the user is authenticated exactly from the start of a
      successful check to one session duration after its last renewal, unless a failed check, a reset, a
      policy change, a new gatekeeper or a new password came after it. */
  lemma AuthenticatedIff(config: Config, events: seq<Event>, time: Time)
    ensures var s, latest := Run(config, INITIAL, events), LatestOf(config, events);
      IsUserAuthenticated(s, time) ==
      Returns(latest.Checked? && s.gatekeeper.Some? &&
              latest.start <= time <= latest.renewal + s.gatekeeper.value.policy.sessionDuration)
  {
    hide Run, LatestOf;
    RunConsistent(config, events);
  }

  /** In every reachable state a held session comes with no failures and no denial time, and asking whether
      it is active never meets an inverted range. */
  lemma HeldSessionIsClean(config: Config, events: seq<Event>)
    ensures var g := Run(config, INITIAL, events).gatekeeper;
      g.Some? && g.value.session.Some? ==>
        g.value.failedAttemptCount == 0 && g.value.accessDeniedAt.None? && Sound(g.value.session.value)
  {
    hide Run, LatestOf;
    RunConsistent(config, events);
  }

  // ----- Blocking -----

  /** The times of the credential checks of a run. */
  function CheckTimes(config: Config, s: IdentityState, events: seq<Event>): seq<Time>
    decreases events
  {
    if events == [] then []
    else
      var e := events[0];
      (if e.Attempt? && IsChecked(s, e.time) then [e.time] else []) +
      CheckTimes(config, Step(config, s, e), events[1..])
  }

  /** A policy change or a new gatekeeper with values the policy refuses: nothing changes. */
  predicate IsRefused(s: IdentityState, e: Event) {
    || (e.ChangePolicy? && s.gatekeeper.Some? && WithChange(s.gatekeeper.value.policy, e.change).Failure?)
    || (e.CreateGatekeeper? && MakePolicy(e.sessionDuration, e.maxFailedAttempts, e.blockDuration).Failure?)
  }

  /** No check succeeds and nothing else touches the counters: attempts, use of access, user changes and
      refused policies. */
  predicate OnlyFailures(config: Config, s: IdentityState, events: seq<Event>)
    decreases events
  {
    events != [] ==>
    var e := events[0];
    && (e.Attempt? || e.Use? || e.Register? || e.UpdatePassword? || IsRefused(s, e))
    && (e.Attempt? && IsChecked(s, e.time) ==> !Matches(config, s, e.credentials))
    && OnlyFailures(config, Step(config, s, e), events[1..])
  }

  /** From the moment the failures reach the maximum, each check waits for the block to expire. */
  predicate Spaced(policy: Policy, failed: int, denied: Option<Time>, checks: seq<Time>)
    decreases checks
  {
    checks != [] ==>
      && (failed >= policy.maxFailedAttempts && denied.Some? ==> checks[0] >= denied.value + policy.blockDuration)
      && Spaced(policy, failed + 1, Some(checks[0]), checks[1..])
  }

  lemma UseKeepsCounters(g: GatekeeperState, time: Time)
    ensures var g' := UseAccess(g, time).0;
      g'.policy == g.policy && g'.failedAttemptCount == g.failedAttemptCount && g'.accessDeniedAt == g.accessDeniedAt
  {}

  lemma {:induction false} FailuresAreSpaced(config: Config, s: IdentityState, events: seq<Event>)
    requires s.gatekeeper.Some? && OnlyFailures(config, s, events)
    ensures var g := s.gatekeeper.value;
      Spaced(g.policy, g.failedAttemptCount, g.accessDeniedAt, CheckTimes(config, s, events))
    decreases events
  {
    if events != [] {
      var e := events[0];
      var next := Step(config, s, e);
      var rest := CheckTimes(config, next, events[1..]);
      FailuresAreSpaced(config, next, events[1..]);
      if e.Use? {
        UseKeepsCounters(s.gatekeeper.value, e.time);
      }
      var checks := CheckTimes(config, s, events);
      if e.Attempt? && IsChecked(s, e.time) {
        assert checks == [e.time] + rest;
        assert checks[1..] == rest;
      } else {
        assert checks == rest;
      }
    }
  }

  lemma {:induction false} SpacedAt(policy: Policy, failed: int, denied: Option<Time>, checks: seq<Time>, i: nat)
    requires Spaced(policy, failed, denied, checks) && 1 <= i < |checks| && failed + i >= policy.maxFailedAttempts
    ensures checks[i] >= checks[i - 1] + policy.blockDuration
    decreases checks
  {
    if i > 1 {
      SpacedAt(policy, failed + 1, Some(checks[0]), checks[1..], i - 1);
    } else {
      assert checks[1..][0] == checks[1];
    }
  }

  /** Starting from a fresh gatekeeper, each failed check from the maximum on is followed by the next one no
      sooner than one block duration later. */
  lemma BlockedBetweenChecks(config: Config, s: IdentityState, events: seq<Event>, i: nat)
    requires s.gatekeeper.Some? && s.gatekeeper.value.failedAttemptCount == 0 && OnlyFailures(config, s, events)
    requires 1 <= i < |CheckTimes(config, s, events)| && i >= s.gatekeeper.value.policy.maxFailedAttempts
    ensures var checks := CheckTimes(config, s, events);
      checks[i] >= checks[i - 1] + s.gatekeeper.value.policy.blockDuration
  {
    FailuresAreSpaced(config, s, events);
    var g := s.gatekeeper.value;
    SpacedAt(g.policy, 0, g.accessDeniedAt, CheckTimes(config, s, events), i);
  }

  /** So the checks beyond the maximum fit into the time since the maximum was reached. */
  lemma {:induction false} ChecksFitInTime(config: Config, s: IdentityState, events: seq<Event>, n: nat)
    requires s.gatekeeper.Some? && s.gatekeeper.value.failedAttemptCount == 0 && OnlyFailures(config, s, events)
    requires s.gatekeeper.value.policy.Valid()
    requires s.gatekeeper.value.policy.maxFailedAttempts <= n <= |CheckTimes(config, s, events)|
    ensures var checks, policy := CheckTimes(config, s, events), s.gatekeeper.value.policy;
      checks[n - 1] >= checks[policy.maxFailedAttempts - 1] +
                       ((n - policy.maxFailedAttempts) as real) * policy.blockDuration
    decreases n
  {
    var policy := s.gatekeeper.value.policy;
    if n > policy.maxFailedAttempts {
      ChecksFitInTime(config, s, events, n - 1);
      BlockedBetweenChecks(config, s, events, n - 1);
      var k := (n - 1 - policy.maxFailedAttempts) as real;
      assert (n - policy.maxFailedAttempts) as real == k + 1.0;
      assert (k + 1.0) * policy.blockDuration == k * policy.blockDuration + policy.blockDuration;
    }
  }

  /** With a positive block duration the number of failed checks by time T is bounded:
      the maximum, and one more for each whole block duration since it was reached. */
  lemma FailedChecksBounded(config: Config, s: IdentityState, events: seq<Event>, limit: Time)
    requires s.gatekeeper.Some? && s.gatekeeper.value.failedAttemptCount == 0 && OnlyFailures(config, s, events)
    requires s.gatekeeper.value.policy.Valid() && s.gatekeeper.value.policy.blockDuration > 0.0
    requires forall i | 0 <= i < |CheckTimes(config, s, events)| :: CheckTimes(config, s, events)[i] <= limit
    ensures var checks, policy := CheckTimes(config, s, events), s.gatekeeper.value.policy;
      |checks| > policy.maxFailedAttempts ==>
        |checks| <= policy.maxFailedAttempts +
                    ((limit - checks[policy.maxFailedAttempts - 1]) / policy.blockDuration).Floor
  {
    var checks, policy := CheckTimes(config, s, events), s.gatekeeper.value.policy;
    var max := policy.maxFailedAttempts;
    if |checks| > max {
      ChecksFitInTime(config, s, events, |checks|);
      FloorBound((|checks| - max) as nat, limit - checks[max - 1], policy.blockDuration);
    }
  }

  lemma FloorBound(n: nat, span: real, unit: real)
    requires unit > 0.0 && (n as real) * unit <= span
    ensures n <= (span / unit).Floor
  {
    assert span / unit * unit == span;
    assert span / unit >= n as real;
  }

  // ----- No block before the maximum -----

  function AttemptTimes(events: seq<Event>): seq<Time> {
    if events == [] then []
    else (if events[0].Attempt? then [events[0].time] else []) + AttemptTimes(events[1..])
  }

  /** While the failures stay below the maximum every attempt is checked. */
  lemma {:induction false} CheckedBelowMaximum(config: Config, s: IdentityState, events: seq<Event>)
    requires s.gatekeeper.Some? && OnlyFailures(config, s, events)
    requires var g := s.gatekeeper.value;
      g.failedAttemptCount + |AttemptTimes(events)| <= g.policy.maxFailedAttempts
    ensures CheckTimes(config, s, events) == AttemptTimes(events)
    decreases events
  {
    if events != [] {
      var e := events[0];
      if e.Use? {
        UseKeepsCounters(s.gatekeeper.value, e.time);
      }
      CheckedBelowMaximum(config, Step(config, s, e), events[1..]);
    }
  }
}
