/** What the identity service is for, told without its gatekeeper: a policy, the times of the failed checks since
    the last clean slate, the password, and the session somebody holds. Every run of the service agrees with it. */
module IdentityReference {
  import opened Outcomes
  import opened Sessions
  import opened Gatekeepers
  import opened Identity
  import opened IdentityRuns

  datatype Span = Span(start: Time, renewal: Time)

  /** `isHeld` tells whether the user still holds the running session; a new password takes it away. */
  datatype Reference = Reference(
    policy: Option<Policy>, failures: seq<Time>, password: Option<string>, session: Option<Span>, isHeld: bool)

  const START := Reference(None, [], None, None, false)

  /** Credentials are looked at with fewer failures than the maximum, or once the block is over. */
  predicate IsOpen(r: Reference, time: Time) {
    r.policy.Some? &&
    (|r.failures| < r.policy.value.maxFailedAttempts ||
     (r.failures != [] && time >= r.failures[|r.failures| - 1] + r.policy.value.blockDuration))
  }

  predicate IsCorrect(config: Config, r: Reference, credentials: Credentials) {
    r.password.Some? &&
    match credentials
    case Password(text) => config.encrypted(text) == config.encrypted(r.password.value)
    case Biometry(accepted) => accepted
  }

  predicate IsRunning(r: Reference, time: Time) {
    r.policy.Some? && r.session.Some? &&
    r.session.value.start <= time <= r.session.value.renewal + r.policy.value.sessionDuration
  }

  /** A clean slate under a policy. */
  function Fresh(r: Reference, policy: Policy): Reference {
    Reference(Some(policy), [], r.password, None, false)
  }

  function Follow(config: Config, r: Reference, e: Event): Reference {
    match e
    case Attempt(credentials, time, _) =>
      if !IsOpen(r, time) then r
      else if IsCorrect(config, r, credentials) then
        r.(failures := [], session := Some(Span(time, time)), isHeld := true)
      else r.(failures := r.failures + [time], session := None, isHeld := false)
    case Use(time) =>
      if IsOpen(r, time) && IsRunning(r, time) then r.(session := Some(Span(r.session.value.start, time))) else r
    case Reset => Reference(r.policy, [], None, None, false)
    case ChangePolicy(SessionDuration(d)) =>
      if r.policy.None? || d <= 0.0 then r else Fresh(r, r.policy.value.(sessionDuration := d))
    case ChangePolicy(MaxFailedAttempts(n)) =>
      if r.policy.None? || n <= 0 then r else Fresh(r, r.policy.value.(maxFailedAttempts := n))
    case ChangePolicy(BlockDuration(d)) =>
      if r.policy.None? || d < 0.0 then r else Fresh(r, r.policy.value.(blockDuration := d))
    case CreateGatekeeper(d, n, b) => if d > 0.0 && n > 0 && b >= 0.0 then Fresh(r, Policy(d, n, b)) else r
    case Register(password) =>
      if r.password.Some? || !config.acceptable(password) then r else r.(password := Some(password))
    case UpdatePassword(password) =>
      if r.password.None? || !config.acceptable(password) then r else r.(password := Some(password), isHeld := false)
  }

  function FollowAll(config: Config, r: Reference, events: seq<Event>): Reference {
    if events == [] then r else Follow(config, FollowAll(config, r, events[..|events| - 1]), events[|events| - 1])
  }

  // ----- The service agrees -----

  predicate GatekeeperAgrees(g: GatekeeperState, r: Reference) {
    && r.policy == Some(g.policy) && g.policy.Valid() && g.failedAttemptCount == |r.failures|
    && g.accessDeniedAt == (if r.failures == [] then None else Some(r.failures[|r.failures| - 1]))
    && (g.session.Some? <==> r.session.Some?)
    && (g.session.Some? ==>
          var s := g.session.value;
          && r.failures == [] && s.duration == g.policy.sessionDuration && s.endedAt.None?
          && s.startedAt == Some(r.session.value.start) && LastUse(s) == r.session.value.renewal
          && r.session.value.start <= r.session.value.renewal)
  }

  predicate UserAgrees(config: Config, s: IdentityState, r: Reference) {
    && (s.user.Some? <==> r.password.Some?)
    && (s.user.Some? ==> s.user.value.password == config.encrypted(r.password.value))
    && (r.session.Some? ==>
          && s.gatekeeper.Some? && s.gatekeeper.value.session.Some? && s.user.Some?
          && s.user.value.sessionID == if r.isHeld then Some(s.gatekeeper.value.session.value.id) else None)
    && (r.isHeld ==> r.session.Some?)
  }

  predicate Agrees(config: Config, s: IdentityState, r: Reference) {
    && (s.gatekeeper.None? ==> r.policy.None? && r.failures == [] && r.session.None?)
    && (s.gatekeeper.Some? ==> GatekeeperAgrees(s.gatekeeper.value, r))
    && UserAgrees(config, s, r)
  }

  lemma OpenIffPossible(g: GatekeeperState, r: Reference, time: Time)
    requires GatekeeperAgrees(g, r)
    ensures IsAccessPossible(g, time) <==> IsOpen(r, time)
  {}

  lemma AttemptAgrees(config: Config, s: IdentityState, r: Reference, e: Event)
    requires Agrees(config, s, r) && e.Attempt?
    ensures Agrees(config, Step(config, s, e), Follow(config, r, e))
  {
    if s.gatekeeper.Some? {
      OpenIffPossible(s.gatekeeper.value, r, e.time);
    }
  }

  lemma UseAgrees(config: Config, s: IdentityState, r: Reference, e: Event)
    requires Agrees(config, s, r) && e.Use?
    ensures Agrees(config, Step(config, s, e), Follow(config, r, e))
  {
    if s.gatekeeper.Some? {
      OpenIffPossible(s.gatekeeper.value, r, e.time);
    }
  }

  lemma UserEventAgrees(config: Config, s: IdentityState, r: Reference, e: Event)
    requires Agrees(config, s, r) && (e.Reset? || e.Register? || e.UpdatePassword?)
    ensures Agrees(config, Step(config, s, e), Follow(config, r, e))
  {}

  lemma PolicyEventAgrees(config: Config, s: IdentityState, r: Reference, e: Event)
    requires Agrees(config, s, r) && (e.ChangePolicy? || e.CreateGatekeeper?)
    ensures Agrees(config, Step(config, s, e), Follow(config, r, e))
  {}

  lemma StepAgrees(config: Config, s: IdentityState, r: Reference, e: Event)
    requires Agrees(config, s, r)
    ensures Agrees(config, Step(config, s, e), Follow(config, r, e))
  {
    hide Agrees, Step, Follow;
    match e
    case Attempt(_, _, _) => AttemptAgrees(config, s, r, e);
    case Use(_) => UseAgrees(config, s, r, e);
    case Reset => UserEventAgrees(config, s, r, e);
    case Register(_) => UserEventAgrees(config, s, r, e);
    case UpdatePassword(_) => UserEventAgrees(config, s, r, e);
    case ChangePolicy(_) => PolicyEventAgrees(config, s, r, e);
    case CreateGatekeeper(_, _, _) => PolicyEventAgrees(config, s, r, e);
  }

  lemma {:induction false} RunAgrees(config: Config, events: seq<Event>)
    ensures Agrees(config, Run(config, INITIAL, events), FollowAll(config, START, events))
  {
    if events != [] {
      var before := events[..|events| - 1];
      RunAgrees(config, before);
      StepAgrees(config, Run(config, INITIAL, before), FollowAll(config, START, before), events[|events| - 1]);
    }
  }

  // ----- What the caller sees -----

  /** Over every run the user counts as authenticated exactly while holding a running session. */
  lemma AuthenticatedIffRunning(config: Config, events: seq<Event>, time: Time)
    ensures var r := FollowAll(config, START, events);
      IsUserAuthenticated(Run(config, INITIAL, events), time) == Returns(r.isHeld && IsRunning(r, time))
  {
    hide Run, FollowAll;
    RunAgrees(config, events);
  }

  /** What an attempt after any run does: nothing while blocked; otherwise correct credentials authenticate at that
      moment and clear the failures, and wrong ones end every session and count. */
  lemma AttemptOutcome(config: Config, events: seq<Event>, credentials: Credentials, time: Time, id: string)
    ensures var r := FollowAll(config, START, events);
      var before := Run(config, INITIAL, events);
      var after := Run(config, INITIAL, events + [Attempt(credentials, time, id)]);
      && (!IsOpen(r, time) ==> after == before)
      && (IsOpen(r, time) && IsCorrect(config, r, credentials) ==>
            && IsUserAuthenticated(after, time) == Returns(true)
            && after.gatekeeper.Some? && after.gatekeeper.value.failedAttemptCount == 0)
      && (IsOpen(r, time) && !IsCorrect(config, r, credentials) ==>
            && IsUserAuthenticated(after, time) == Returns(false)
            && before.gatekeeper.Some? && after.gatekeeper.Some?
            && after.gatekeeper.value.failedAttemptCount == before.gatekeeper.value.failedAttemptCount + 1)
  {
    var attempt := Attempt(credentials, time, id);
    var all := events + [attempt];
    assert all[..|all| - 1] == events;
    assert Run(config, INITIAL, all) == Step(config, Run(config, INITIAL, events), attempt);
    assert FollowAll(config, START, all) == Follow(config, FollowAll(config, START, events), attempt);
    hide Run, FollowAll;
    RunAgrees(config, events);
    var before, r := Run(config, INITIAL, events), FollowAll(config, START, events);
    if before.gatekeeper.Some? {
      OpenIffPossible(before.gatekeeper.value, r, time);
    }
    AttemptAgrees(config, before, r, attempt);
  }

  /** What using access after any run answers: blocked, not active any more, or used; it never crashes. */
  lemma UseOutcome(config: Config, events: seq<Event>, time: Time)
    requires Run(config, INITIAL, events).gatekeeper.Some?
    ensures var r := FollowAll(config, START, events);
      UseAccess(Run(config, INITIAL, events).gatekeeper.value, time).1 ==
      if !IsOpen(r, time) then Blocked
      else if r.session.Some? && !IsRunning(r, time) then NotActive
      else Used
  {
    hide Run, FollowAll;
    RunAgrees(config, events);
    OpenIffPossible(Run(config, INITIAL, events).gatekeeper.value, FollowAll(config, START, events), time);
  }

  // ----- Runs of failures -----

  /** From the times of the attempts and the numbers of the policy alone: an attempt is checked if fewer than the
      maximum were checked before it, or it comes at least one block duration after the last checked one. */
  function Checks(max: int, block: Time, checked: seq<Time>, attempts: seq<Time>): seq<Time>
    decreases attempts
  {
    if attempts == [] then checked
    else
      var t := attempts[0];
      var isChecked := |checked| < max || (checked != [] && t >= checked[|checked| - 1] + block);
      Checks(max, block, if isChecked then checked + [t] else checked, attempts[1..])
  }

  /** No attempt meets an open gate with correct credentials, and nothing wipes the slate. */
  predicate NoSuccess(config: Config, r: Reference, events: seq<Event>)
    decreases events
  {
    events != [] ==>
    var e := events[0];
    && (e.Attempt? || e.Use? || e.Register? || e.UpdatePassword? || Follow(config, r, e) == r)
    && (e.Attempt? && IsOpen(r, e.time) ==> !IsCorrect(config, r, e.credentials))
    && NoSuccess(config, Follow(config, r, e), events[1..])
  }

  lemma {:induction false} FailuresAreChecks(config: Config, r: Reference, events: seq<Event>)
    requires r.policy.Some? && NoSuccess(config, r, events)
    ensures FollowAll(config, r, events).failures ==
            Checks(r.policy.value.maxFailedAttempts, r.policy.value.blockDuration, r.failures, AttemptTimes(events))
    ensures FollowAll(config, r, events).policy == r.policy
    decreases events
  {
    hide Follow, IsOpen, IsCorrect, FollowAll;
    if events != [] {
      var e := events[0];
      FailureStep(config, r, e);
      FollowFirst(config, r, events);
      FailuresAreChecks(config, Follow(config, r, e), events[1..]);
      var times, rest := AttemptTimes(events), AttemptTimes(events[1..]);
      if e.Attempt? {
        assert times == [e.time] + rest && times[1..] == rest;
        OpenRule(r, e.time);
      } else {
        assert times == rest;
      }
    } else {
      FollowNothing(config, r, events);
    }
  }

  lemma FollowNothing(config: Config, r: Reference, events: seq<Event>)
    requires events == []
    ensures FollowAll(config, r, events) == r
  {}

  lemma OpenRule(r: Reference, time: Time)
    requires r.policy.Some?
    ensures IsOpen(r, time) <==>
            || |r.failures| < r.policy.value.maxFailedAttempts
            || (r.failures != [] && time >= r.failures[|r.failures| - 1] + r.policy.value.blockDuration)
  {}

  lemma FailureStep(config: Config, r: Reference, e: Event)
    requires e.Attempt? || e.Use? || e.Register? || e.UpdatePassword? || Follow(config, r, e) == r
    requires e.Attempt? && IsOpen(r, e.time) ==> !IsCorrect(config, r, e.credentials)
    ensures var next := Follow(config, r, e);
      && next.policy == r.policy
      && next.failures == if e.Attempt? && IsOpen(r, e.time) then r.failures + [e.time] else r.failures
  {}

  lemma {:induction false} FollowFirst(config: Config, r: Reference, events: seq<Event>)
    requires events != []
    ensures FollowAll(config, r, events) == FollowAll(config, Follow(config, r, events[0]), events[1..])
    decreases |events|
  {
    hide Follow;
    if |events| > 1 {
      var n := |events| - 1;
      FollowFirst(config, r, events[..n]);
      assert events[1..][..n - 1] == events[..n][1..];
    } else {
      assert events[..0] == [] && events[1..] == [];
    }
  }

  /** After any run, and then failures only: the service has counted exactly the checks that rule gives, on top of
      those counted before, and remembers the last. */
  lemma FailuresCounted(config: Config, events: seq<Event>, more: seq<Event>)
    requires FollowAll(config, START, events).policy.Some?
    requires NoSuccess(config, FollowAll(config, START, events), more)
    ensures var r := FollowAll(config, START, events);
      var policy := r.policy.value;
      var checks := Checks(policy.maxFailedAttempts, policy.blockDuration, r.failures, AttemptTimes(more));
      var g := Run(config, INITIAL, events + more).gatekeeper;
      && g.Some? && g.value.failedAttemptCount == |checks|
      && g.value.accessDeniedAt == if checks == [] then None else Some(checks[|checks| - 1])
  {
    hide Run, Follow, Checks;
    var r := FollowAll(config, START, events);
    FollowConcat(config, START, events, more);
    FailuresAreChecks(config, r, more);
    RunAgrees(config, events + more);
  }

  lemma {:induction false} FollowConcat(config: Config, r: Reference, events: seq<Event>, more: seq<Event>)
    ensures FollowAll(config, r, events + more) == FollowAll(config, FollowAll(config, r, events), more)
    decreases |more|
  {
    hide Follow;
    if more == [] {
      assert events + more == events;
    } else {
      var n := |more| - 1;
      FollowConcat(config, r, events, more[..n]);
      assert (events + more)[..|events + more| - 1] == events + more[..n];
    }
  }

  /** Two failures reach a maximum of two; blocked for fifteen seconds, the right password is refused at 110 and
      accepted at 120. */
  lemma BlockEnds(config: Config)
    requires config.acceptable("right") && config.encrypted("right") != config.encrypted("wrong")
    ensures var run := [CreateGatekeeper(60.0, 2, 15.0), Register("right"),
                        Attempt(Password("wrong"), 90.0, "a"), Attempt(Password("wrong"), 100.0, "b")];
      var early := Run(config, INITIAL, run + [Attempt(Password("right"), 110.0, "c")]);
      var late := Run(config, INITIAL, run + [Attempt(Password("right"), 120.0, "d")]);
      IsUserAuthenticated(early, 110.0) == Returns(false) && IsUserAuthenticated(late, 120.0) == Returns(true)
  {
    hide Run, IsUserAuthenticated;
    var run := [CreateGatekeeper(60.0, 2, 15.0), Register("right"),
                Attempt(Password("wrong"), 90.0, "a"), Attempt(Password("wrong"), 100.0, "b")];
    assert run[..3][..2] == run[..2] && run[..2][..1] == run[..1] && run[..1][..0] == [];
    var policy := Policy(60.0, 2, 15.0);
    assert FollowAll(config, START, run[..1]) == Reference(Some(policy), [], None, None, false);
    assert FollowAll(config, START, run[..2]) == Reference(Some(policy), [], Some("right"), None, false);
    assert FollowAll(config, START, run[..3]) == Reference(Some(policy), [90.0], Some("right"), None, false);
    assert FollowAll(config, START, run) == Reference(Some(policy), [90.0, 100.0], Some("right"), None, false);
    AttemptOutcome(config, run, Password("right"), 110.0, "c");
    AttemptOutcome(config, run, Password("right"), 120.0, "d");
    AuthenticatedIffRunning(config, run, 110.0);
  }
}
