/** What registration and login compute, as functions of the user table, the
    collaborators and the request. The class in module Services is proved to
    behave as these functions say. */
module UserServiceSpec {
  import opened Domain
  import opened Dto
  import opened Collaborators
  import opened UserDetailsServiceImpl

  const EMAIL_IN_USE := "Email already in use"
  const BAD_CREDENTIALS := "Bad credentials"
  const AUDIT_TOPIC := "user.logged"

  /** The record registration builds through its setters. */
  function NewUser(id: Uuid, request: RegisterRequest, encoder: PasswordEncoder): User
  {
    User(id, request.email, encoder.encode(request.password), request.role)
  }

  /** registerUser: the response and the user table afterwards. A duplicate
      email is rejected and leaves the table as it was; otherwise exactly one
      record is added under the request's email, holding the email and role
      verbatim and the encoded password, and the response is that record's
      id, email and role. */
  function Register(users: UserTable, encoder: PasswordEncoder, id: Uuid, request: RegisterRequest)
    : (r: (Result<UserResponse>, UserTable))
    ensures r.0.Failure? <==> request.email in users
    ensures r.0.Failure? ==> r.0.error == IllegalArgument(EMAIL_IN_USE) && r.1 == users
    ensures r.0.Success? ==> r.1.Keys == users.Keys + {request.email}
    ensures r.0.Success? ==> forall email :: email in users ==> r.1[email] == users[email]
    ensures r.0.Success? ==> var saved := r.1[request.email];
                             && saved.id == id
                             && saved.email == request.email
                             && saved.role == request.role
                             && saved.password == encoder.encode(request.password)
    ensures r.0.Success? ==> var saved := r.1[request.email];
                             r.0.value == UserResponse(saved.id, saved.email, saved.role)
    ensures WellKeyed(users) ==> WellKeyed(r.1)
  {
    if request.email in users then
      (Failure(IllegalArgument(EMAIL_IN_USE)), users)
    else
      var saved := NewUser(id, request, encoder);
      (Success(UserResponse(saved.id, saved.email, saved.role)), users[saved.email := saved])
  }

  /** The authentication manager: look the user up, then check the raw
      password against the stored encoded one. The principal is the looked-up
      details. A not-found lookup becomes bad credentials when
      `hideUserNotFound` is set (Spring's default), and any other lookup
      failure is rewrapped as an internal authentication failure. */
  function Authenticate(users: UserTable, encoder: PasswordEncoder, hideUserNotFound: bool,
                        email: string, password: string)
    : (r: Result<UserDetails>)
    ensures r.Success? <==> email in users && users[email].email != ""
                            && encoder.matches(password, users[email].password)
    ensures r.Success? ==> LoadUserByUsername(users, email) == Success(r.value)
    ensures email !in users ==>
              r.error == if hideUserNotFound then BadCredentials(BAD_CREDENTIALS)
                         else UsernameNotFound(USER_NOT_FOUND_PREFIX + email)
    ensures email in users && users[email].email == "" ==> r.error == InternalAuthenticationService(EMPTY_VALUES)
    ensures email in users && users[email].email != "" && r.Failure? ==> r.error == BadCredentials(BAD_CREDENTIALS)
  {
    match LoadUserByUsername(users, email)
    case Failure(UsernameNotFound(message)) =>
      if hideUserNotFound then Failure(BadCredentials(BAD_CREDENTIALS)) else Failure(UsernameNotFound(message))
    case Failure(e) => Failure(InternalAuthenticationService(e.message))
    case Success(details) =>
      if encoder.matches(password, details.password) then Success(details)
      else Failure(BadCredentials(BAD_CREDENTIALS))
  }

  /** loginUser's result. It does not depend on the audit publish at all: a
      failed authentication propagates unchanged, a successful one yields the
      token generated for the principal's username. */
  function Login(users: UserTable, encoder: PasswordEncoder, hideUserNotFound: bool, jwt: JwtService,
                 request: LoginRequest)
    : (r: Result<LoginResponse>)
    ensures r.Success? <==> Authenticate(users, encoder, hideUserNotFound, request.email, request.password).Success?
    ensures r.Failure? ==>
              r.error == Authenticate(users, encoder, hideUserNotFound, request.email, request.password).error
    ensures r.Success? ==>
              r.value.token
              == jwt.generateToken(Authenticate(users, encoder, hideUserNotFound, request.email, request.password).value.username)
    ensures r.Success? && WellKeyed(users) ==> r.value.token == jwt.generateToken(request.email)
  {
    match Authenticate(users, encoder, hideUserNotFound, request.email, request.password)
    case Failure(e) => Failure(e)
    case Success(principal) => Success(LoginResponse(jwt.generateToken(principal.username)))
  }

  /** The log line written after the publish attempt for `username`. */
  function AuditLogLine(username: string, outcome: SendOutcome): LogEntry
  {
    match outcome
    case Sent => LogInfo("Audit event 'user.logged' published for user: " + username)
    case Threw(message) =>
      LogError("Failed to publish 'user.logged' audit event for user: " + username + ". Error: " + message)
  }
}
