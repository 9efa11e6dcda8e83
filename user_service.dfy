/** The user service object: its repository's user table, the records handed to
    the Kafka template and the lines written to its logger are the state it
    changes; the password encoder and the JWT service are wired in once. */
module Services {
  import opened Domain
  import opened Dto
  import opened Collaborators
  import opened UserDetailsServiceImpl
  import opened UserServiceSpec

  class UserServiceImpl {
    var users: UserTable          // the repository's user table
    var sent: seq<AuditEvent>     // records the Kafka template accepted
    var log: seq<LogEntry>        // lines written to the logger
    const passwordEncoder: PasswordEncoder
    const jwtService: JwtService
    const hideUserNotFoundExceptions: bool  // the authentication manager's setting

    ghost predicate Valid()
      reads this
    {
      WellKeyed(users)
    }

    constructor (table: UserTable, passwordEncoder: PasswordEncoder, jwtService: JwtService,
                 hideUserNotFoundExceptions: bool)
      requires WellKeyed(table)
      ensures Valid()
      ensures users == table && sent == [] && log == []
      ensures this.passwordEncoder == passwordEncoder && this.jwtService == jwtService
      ensures this.hideUserNotFoundExceptions == hideUserNotFoundExceptions
    {
      users := table;
      sent := [];
      log := [];
      this.passwordEncoder := passwordEncoder;
      this.jwtService := jwtService;
      this.hideUserNotFoundExceptions := hideUserNotFoundExceptions;
    }

    /** userRepository.save for a record with a new email: the record is stored
        under its email and returned as saved. */
    method Save(user: User) returns (saved: User)
      modifies this`users
      ensures users == old(users)[user.email := user]
      ensures saved == user
    {
      users := users[user.email := user];
      saved := user;
    }

    /** registerUser, with `freshId` standing for UUID.randomUUID(). Neither the
        Kafka records nor the log change. */
    method RegisterUser(request: RegisterRequest, freshId: Uuid) returns (r: Result<UserResponse>)
      requires Valid()
      modifies this`users
      ensures Valid()
      ensures (r, users) == Register(old(users), passwordEncoder, freshId, request)
    {
      if request.email in users {
        return Failure(IllegalArgument(EMAIL_IN_USE));
      }
      var user := NewUser(freshId, request, passwordEncoder);
      var savedUser := Save(user);
      r := Success(UserResponse(savedUser.id, savedUser.email, savedUser.role));
    }

    /** The try/catch around the Kafka send: the record goes to topic
        "user.logged" with the username as payload; a throw is caught and
        logged, so this never fails. */
    method PublishLoginAudit(username: string, sendOutcome: SendOutcome)
      modifies this`sent, this`log
      ensures sent == old(sent) + if sendOutcome.Sent? then [AuditEvent(AUDIT_TOPIC, username)] else []
      ensures log == old(log) + [AuditLogLine(username, sendOutcome)]
    {
      var topic := AUDIT_TOPIC;
      var payload := username;
      match sendOutcome
      case Sent =>
        sent := sent + [AuditEvent(topic, payload)];
        log := log + [AuditLogLine(payload, sendOutcome)];
      case Threw(_) =>
        log := log + [AuditLogLine(username, sendOutcome)];
    }

    /** loginUser, with `sendOutcome` standing for what the Kafka send does.
        The result is Login's, whatever the send does; a failed
        authentication propagates before any token or audit; a successful one
        publishes the requester's email and returns the token. The table is
        only read. */
    method LoginUser(request: LoginRequest, sendOutcome: SendOutcome) returns (r: Result<LoginResponse>)
      requires Valid()
      modifies this`sent, this`log
      ensures users == old(users)
      ensures r == Login(users, passwordEncoder, hideUserNotFoundExceptions, jwtService, request)
      ensures r.Failure? ==> sent == old(sent) && log == old(log)
      ensures r.Success? ==>
                sent == old(sent) + if sendOutcome.Sent? then [AuditEvent(AUDIT_TOPIC, request.email)] else []
      ensures r.Success? ==> log == old(log) + [AuditLogLine(request.email, sendOutcome)]
    {
      var authentication := Authenticate(users, passwordEncoder, hideUserNotFoundExceptions,
                                         request.email, request.password);
      if authentication.Failure? {
        return Failure(authentication.error);
      }
      var userDetails := authentication.value;
      var jwtToken := jwtService.generateToken(userDetails.username);
      PublishLoginAudit(userDetails.username, sendOutcome);
      r := Success(LoginResponse(jwtToken));
    }
  }
}
