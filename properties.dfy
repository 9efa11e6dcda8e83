/** How registration, lookup and login fit together on one table. */
module UserServiceProperties {
  import opened Domain
  import opened Dto
  import opened Collaborators
  import opened UserDetailsServiceImpl
  import opened UserServiceSpec

  /** After a successful registration, the lookup finds the new user with the
      request's email, the encoded password and the role's name as sole
      authority, unless the email is empty, which the details constructor refuses. */
  lemma LookupAfterRegister(users: UserTable, encoder: PasswordEncoder, id: Uuid, request: RegisterRequest)
    requires request.email !in users
    ensures LoadUserByUsername(Register(users, encoder, id, request).1, request.email)
            == if request.email == "" then Failure(IllegalArgument(EMPTY_VALUES))
               else Success(UserDetails(request.email, encoder.encode(request.password),
                                        [SimpleGrantedAuthority(request.role.name)]))
  {
  }

  /** Registering an email that a registration just added fails, and the
      table stays as that registration left it, whatever the second password
      and role. */
  lemma ReRegisterRejected(users: UserTable, encoder: PasswordEncoder, id: Uuid, request: RegisterRequest,
                           id2: Uuid, password2: string, role2: Role)
    requires request.email !in users
    ensures var after := Register(users, encoder, id, request).1;
            Register(after, encoder, id2, RegisterRequest(request.email, password2, role2))
            == (Failure(IllegalArgument(EMAIL_IN_USE)), after)
  {
  }

  /** Logging in with the password just registered yields the token for that
      email, provided the encoder accepts its own encoding of it and the email
      is not empty. */
  lemma LoginAfterRegister(users: UserTable, encoder: PasswordEncoder, hideUserNotFound: bool, jwt: JwtService,
                           id: Uuid, request: RegisterRequest)
    requires WellKeyed(users)
    requires request.email !in users
    requires encoder.matches(request.password, encoder.encode(request.password))
    ensures Login(Register(users, encoder, id, request).1, encoder, hideUserNotFound, jwt,
                  LoginRequest(request.email, request.password))
            == if request.email == "" then Failure(InternalAuthenticationService(EMPTY_VALUES))
               else Success(LoginResponse(jwt.generateToken(request.email)))
  {
  }

  /** Logging in with a password the encoder rejects against the stored
      encoding fails with bad credentials (or, for an empty email, with the
      rewrapped constructor failure). */
  lemma WrongPasswordAfterRegister(users: UserTable, encoder: PasswordEncoder, hideUserNotFound: bool,
                                   jwt: JwtService, id: Uuid, request: RegisterRequest, wrong: string)
    requires request.email !in users
    requires !encoder.matches(wrong, encoder.encode(request.password))
    ensures Login(Register(users, encoder, id, request).1, encoder, hideUserNotFound, jwt,
                  LoginRequest(request.email, wrong))
            == if request.email == "" then Failure(InternalAuthenticationService(EMPTY_VALUES))
               else Failure(BadCredentials(BAD_CREDENTIALS))
  {
  }

  /** Logging in with an email nobody registered fails: with bad credentials
      when not-found is hidden, with the lookup's not-found error otherwise. */
  lemma UnknownEmailLoginFails(users: UserTable, encoder: PasswordEncoder, jwt: JwtService, request: LoginRequest)
    requires request.email !in users
    ensures Login(users, encoder, true, jwt, request) == Failure(BadCredentials(BAD_CREDENTIALS))
    ensures Login(users, encoder, false, jwt, request)
            == Failure(UsernameNotFound(USER_NOT_FOUND_PREFIX + request.email))
  {
  }

  /** An unknown email and a wrong password for a known one give the same
      failure exactly when not-found is hidden. */
  lemma UnknownEmailLikeWrongPassword(users: UserTable, encoder: PasswordEncoder, hideUserNotFound: bool,
                                      jwt: JwtService, unknown: LoginRequest, wrong: LoginRequest)
    requires unknown.email !in users
    requires wrong.email in users && users[wrong.email].email != ""
    requires !encoder.matches(wrong.password, users[wrong.email].password)
    ensures Login(users, encoder, hideUserNotFound, jwt, unknown) == Login(users, encoder, hideUserNotFound, jwt, wrong)
            <==> hideUserNotFound
  {
  }

  /** A worked example: register a@x.com as STUDENT, log in with the right
      and with a wrong password, then register the same email again. */
  lemma RegisterLoginScenario(encoder: PasswordEncoder, hideUserNotFound: bool, jwt: JwtService, id: Uuid, id2: Uuid)
    requires encoder.matches("secret123", encoder.encode("secret123"))
    requires !encoder.matches("wrong", encoder.encode("secret123"))
    ensures var request := RegisterRequest("a@x.com", "secret123", Role("STUDENT"));
            var (registered, table) := Register(map[], encoder, id, request);
            && registered == Success(UserResponse(id, "a@x.com", Role("STUDENT")))
            && Login(table, encoder, hideUserNotFound, jwt, LoginRequest("a@x.com", "secret123"))
               == Success(LoginResponse(jwt.generateToken("a@x.com")))
            && Login(table, encoder, hideUserNotFound, jwt, LoginRequest("a@x.com", "wrong"))
               == Failure(BadCredentials(BAD_CREDENTIALS))
            && Register(table, encoder, id2, request).0 == Failure(IllegalArgument(EMAIL_IN_USE))
  {
    var request := RegisterRequest("a@x.com", "secret123", Role("STUDENT"));
    LoginAfterRegister(map[], encoder, hideUserNotFound, jwt, id, request);
    WrongPasswordAfterRegister(map[], encoder, hideUserNotFound, jwt, id, request, "wrong");
  }
}
