/** Registration and authentication: IdentityAccess/IdentityAccessDomainModel/IdentityService/IdentityService.swift,
    with the configuration calls of IdentityAccess/IdentityAccessApplication/AuthenticationApplicationService.swift. */
module Identity {
  import opened Outcomes
  import opened Sessions
  import opened Gatekeepers

  /** The password hash and the password rules, as given. */
  datatype Config = Config(encrypted: string -> string, acceptable: string -> bool)

  datatype UserState = UserState(password: string, sessionID: Option<string>)

  /** The single gatekeeper and the single user the repositories hold. */
  datatype IdentityState = IdentityState(gatekeeper: Option<GatekeeperState>, user: Option<UserState>)

  // ----- Queries -----

  function IsUserAuthenticated(s: IdentityState, time: Time): Outcome<bool> {
    if s.gatekeeper.None? || s.user.None? || s.user.value.sessionID.None? then Returns(false)
    else HasAccess(s.gatekeeper.value, s.user.value.sessionID.value, time)
  }

  // ----- Events -----

  datatype Credentials = Password(text: string) | Biometry(accepted: bool)

  /** One call into the service; `freshId` names the session an attempt starts if it succeeds. */
  datatype Event =
    | Attempt(credentials: Credentials, time: Time, freshId: string)
    | Use(time: Time)
    | Reset
    | ChangePolicy(change: Change)
    | CreateGatekeeper(sessionDuration: Time, maxFailedAttempts: int, blockDuration: Time)
    | Register(password: string)
    | UpdatePassword(password: string)

  function Matches(config: Config, s: IdentityState, credentials: Credentials): bool {
    s.user.Some? &&
    match credentials
    case Password(text) => s.user.value.password == config.encrypted(text)
    case Biometry(accepted) => accepted
  }

  /** A credential check takes place only while access is possible. */
  predicate IsChecked(s: IdentityState, time: Time) {
    s.gatekeeper.Some? && IsAccessPossible(s.gatekeeper.value, time)
  }

  function Attempted(config: Config, s: IdentityState, credentials: Credentials, time: Time, freshId: string)
    : IdentityState
  {
    if !IsChecked(s, time) then s
    else if !Matches(config, s, credentials) then s.(gatekeeper := Some(Denied(s.gatekeeper.value, time)))
    else IdentityState(Some(Allowed(s.gatekeeper.value, time, freshId)),
                       Some(s.user.value.(sessionID := Some(freshId))))
  }

  function Step(config: Config, s: IdentityState, e: Event): IdentityState {
    match e
    case Attempt(credentials, time, freshId) => Attempted(config, s, credentials, time, freshId)
    case Use(time) =>
      if s.gatekeeper.None? then s else s.(gatekeeper := Some(UseAccess(s.gatekeeper.value, time).0))
    case Reset =>
      IdentityState(if s.gatekeeper.None? then None else Some(Cleared(s.gatekeeper.value)), None)
    case ChangePolicy(change) =>
      if s.gatekeeper.None? then s else s.(gatekeeper := Some(ChangedPolicy(s.gatekeeper.value, change).0))
    case CreateGatekeeper(d, n, b) =>
      (match MakePolicy(d, n, b)
       case Success(policy) => s.(gatekeeper := Some(NewGatekeeper(policy)))
       case Failure(_) => s)
    case Register(password) =>
      if s.user.Some? || !config.acceptable(password) then s
      else s.(user := Some(UserState(config.encrypted(password), None)))
    case UpdatePassword(password) =>
      if s.user.None? || !config.acceptable(password) then s
      else s.(user := Some(UserState(config.encrypted(password), None)))
  }

  function Run(config: Config, s: IdentityState, events: seq<Event>): IdentityState {
    if events == [] then s else Step(config, Run(config, s, events[..|events| - 1]), events[|events| - 1])
  }

  const INITIAL := IdentityState(None, None)

  // ----- The service -----

  datatype ServiceError = GatekeeperNotFound | UserAlreadyRegistered | PrimaryUserNotFound | PasswordRejected

  class User {
    var password: string
    var sessionID: Option<string>

    constructor (password: string)
      ensures this.password == password && sessionID == None
    {
      this.password, sessionID := password, None;
    }
  }

  class IdentityService {
    const config: Config
    var gatekeeper: Gatekeeper?
    var user: User?

    ghost function State(): IdentityState
      reads this, gatekeeper, user, if gatekeeper == null then null else gatekeeper.session
    {
      IdentityState(if gatekeeper == null then None else Some(gatekeeper.State()),
                    if user == null then None else Some(UserState(user.password, user.sessionID)))
    }

    ghost predicate Valid()
      reads this, gatekeeper
    {
      gatekeeper != null ==> gatekeeper.policy.Valid()
    }

    constructor (config: Config)
      ensures Valid() && State() == INITIAL && this.config == config
    {
      this.config, gatekeeper, user := config, null, null;
    }

    method CheckAuthenticated(time: Time) returns (r: Outcome<bool>)
      ensures r == IsUserAuthenticated(State(), time)
    {
      if gatekeeper == null || user == null || user.sessionID.None? {
        return Returns(false);
      }
      r := gatekeeper.CheckAccess(user.sessionID.value, time);
    }

    /** The shared part of password and biometric authentication; throws without a gatekeeper. */
    method Authenticate(credentials: Credentials, time: Time, freshId: string) returns (r: Result<bool, ServiceError>)
      requires Valid()
      modifies gatekeeper, user
      ensures Valid()
      ensures State() == Step(config, old(State()), Attempt(credentials, time, freshId))
      ensures r == if old(State()).gatekeeper.None? then Failure(GatekeeperNotFound)
                   else Success(IsChecked(old(State()), time) && Matches(config, old(State()), credentials))
    {
      if gatekeeper == null {
        return Failure(GatekeeperNotFound);
      }
      var possible := gatekeeper.AccessPossible(time);
      if !possible {
        return Success(false);
      }
      var matches := user != null && match credentials
        case Password(text) => user.password == config.encrypted(text)
        case Biometry(accepted) => accepted;
      if !matches {
        gatekeeper.DenyAccess(time);
        return Success(false);
      }
      var blocked := gatekeeper.AllowAccess(time, freshId);
      user.sessionID := Some(freshId);
      return Success(true);
    }

    method CreateGatekeeperWith(sessionDuration: Time, maxFailedAttempts: int, blockDuration: Time)
      returns (error: Option<PolicyError>)
      requires Valid()
      modifies this
      ensures Valid()
      ensures State() == Step(config, old(State()), CreateGatekeeper(sessionDuration, maxFailedAttempts, blockDuration))
      ensures error.None? <==> Policy(sessionDuration, maxFailedAttempts, blockDuration).Valid()
    {
      var policy := MakePolicy(sessionDuration, maxFailedAttempts, blockDuration);
      if policy.Failure? {
        return Some(policy.error);
      }
      gatekeeper := new Gatekeeper(policy.value);
      return None;
    }

    method RegisterUser(password: string) returns (error: Option<ServiceError>)
      requires Valid()
      modifies this
      ensures Valid()
      ensures State() == Step(config, old(State()), Register(password))
      ensures error == if old(State()).user.Some? then Some(UserAlreadyRegistered)
                       else if !config.acceptable(password) then Some(PasswordRejected) else None
    {
      if user != null {
        return Some(UserAlreadyRegistered);
      }
      if !config.acceptable(password) {
        return Some(PasswordRejected);
      }
      user := new User(config.encrypted(password));
      return None;
    }

    /** The stored user is replaced by one without a session. */
    method UpdatePrimaryUserPassword(password: string) returns (error: Option<ServiceError>)
      requires Valid()
      modifies this
      ensures Valid()
      ensures State() == Step(config, old(State()), UpdatePassword(password))
      ensures error == if old(State()).user.None? then Some(PrimaryUserNotFound)
                       else if !config.acceptable(password) then Some(PasswordRejected) else None
    {
      if user == null {
        return Some(PrimaryUserNotFound);
      }
      if !config.acceptable(password) {
        return Some(PasswordRejected);
      }
      user := new User(config.encrypted(password));
      return None;
    }

    method ConfigurePolicy(change: Change) returns (error: Option<PolicyError>)
      requires Valid()
      modifies gatekeeper
      ensures Valid()
      ensures State() == Step(config, old(State()), Event.ChangePolicy(change))
      ensures error.Some? <==> gatekeeper != null && WithChange(old(State()).gatekeeper.value.policy, change).Failure?
    {
      if gatekeeper == null {
        return None;
      }
      error := gatekeeper.ChangePolicy(change);
    }

    method ResetAll()
      requires Valid()
      modifies this, gatekeeper
      ensures Valid()
      ensures State() == Step(config, old(State()), Event.Reset)
    {
      user := null;
      if gatekeeper != null {
        gatekeeper.Reset();
      }
    }
  }
}
