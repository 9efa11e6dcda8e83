# User registration and login, modelled in Dafny

This project models the account core of a small Spring user service: the
registration of a user (a guarded insert into a user table keyed by email), the
lookup Spring Security uses to load a user by email, and the login sequence
(authenticate, generate a token for the principal, publish a best-effort
`user.logged` audit record to Kafka, return the token).

Layout:

- `domain.dfy` (module `Domain`): the user record, role, UUID, the exceptions as an
  `Error` datatype, `Result`, and the user table `map<string, User>` keyed by email
  with `WellKeyed` (every key is its record's email, which is what an exact-match
  `findByEmail` gives).
- `dto.dfy` (module `Dto`): the request and response records; `UserResponse` has no
  password field.
- `collaborators.dfy` (module `Collaborators`): the BCrypt encoder (`encode`,
  `matches`) and the JWT generator as arbitrary function values; the outcome of a
  Kafka send (`Sent` or `Threw(message)`); audit records and log lines.
- `user_details_service.dfy` (module `UserDetailsServiceImpl`): `loadUserByUsername`
  as a function of the table. Being a function, it cannot change the table.
- `user_service_spec.dfy` (module `UserServiceSpec`): what registration and login
  compute, as functions of the table, the collaborators and the request.
- `user_service.dfy` (module `Services`): the service as a class whose fields are the
  table, the records the Kafka template accepted and the log; its methods are proved
  to behave as the functions of `UserServiceSpec` say, and to keep `WellKeyed`.
- `registration_history.dfy` (module `RegistrationHistory`): any run of registrations
  in a row: the first registration of an email decides its record, and nothing
  already stored is ever altered.
- `properties.dfy` (module `UserServiceProperties`): registration followed by lookup,
  re-registration or login, and a worked example (a@x.com / secret123 / STUDENT).

The model follows the code as written:

- The service stores the request's email as given. It does no case normalisation.
- A lookup miss fails with `UsernameNotFound`, and a password mismatch fails with
  `BadCredentials`. The authentication manager turns the first into the second when its
  `hideUserNotFoundExceptions` setting is on (Spring's default). The setting is a
  parameter of the model, and the failures are proved alike exactly when it is on.
- Spring's user-details constructor refuses an empty username. So a record stored under
  the empty email cannot be looked up, and the authentication manager rewraps that
  failure as an internal authentication failure.
- The duplicate check and the insert are two steps. The model covers one call at a time.

## Model

| member | source | states |
|---|---|---|
| UserDetailsServiceImpl.LoadUserByUsername | src/main/java/com/ds6/serviceimpl/UserDetailsServiceImpl.java:24-40 | fails exactly when the email is absent (UsernameNotFound("User not found with email: " + email)) or the stored email is empty (IllegalArgument from the details constructor); otherwise the username is the stored email (so the looked-up email on a well-keyed table), the password is the stored encoded password unchanged, and there is exactly one authority, the stored role's name; read-only, since it is a function of the table |
| UserServiceSpec.Register | src/main/java/com/ds6/serviceimpl/UserServiceImpl.java:38-53 | fails with IllegalArgument("Email already in use") exactly when the email is present, and then the table is unchanged; otherwise the keys grow by exactly the request email, every old record is kept, the new record has the given id, the request's email and role verbatim and encode(password) as its password, and the response is that saved record's id, email and role (no password); keeps the table well-keyed |
| UserServiceSpec.Authenticate | src/main/java/com/ds6/serviceimpl/UserServiceImpl.java:58-62 | succeeds exactly when the email is present, its stored email is non-empty and the encoder matches the raw password against the stored one; the principal is what the lookup returns; an unknown email fails with BadCredentials when not-found is hidden and with the lookup's UsernameNotFound otherwise; an empty stored email fails with an internal authentication failure carrying the constructor's message; a mismatch fails with BadCredentials |
| UserServiceSpec.Login | src/main/java/com/ds6/serviceimpl/UserServiceImpl.java:56-77 | succeeds exactly when authentication succeeds; a failure is authentication's error, propagated unchanged; on success the token is generateToken of the principal's username, which is the request email on a well-keyed table; no audit outcome is an input, so the result cannot depend on it |
| Services.UserServiceImpl.constructor | src/main/java/com/ds6/serviceimpl/UserServiceImpl.java:27-34 | the service starts from a well-keyed table, with no Kafka records and no log lines, wired to the given encoder, JWT generator and not-found hiding setting |
| Services.UserServiceImpl.Save | src/main/java/com/ds6/serviceimpl/UserServiceImpl.java:50 | the record is stored under its email and returned as saved |
| Services.UserServiceImpl.RegisterUser | src/main/java/com/ds6/serviceimpl/UserServiceImpl.java:38-53 | the response and the new table are Register's on the old table, so a duplicate leaves the table unchanged and a success adds exactly the new record; the table stays well-keyed; Kafka records and log untouched |
| Services.UserServiceImpl.PublishLoginAudit | src/main/java/com/ds6/serviceimpl/UserServiceImpl.java:66-74 | never fails; the record (topic "user.logged", payload the username) is added to the accepted records exactly when the send does not throw; one log line is added, the info line on success and the error line with the exception's message on a throw |
| Services.UserServiceImpl.LoginUser | src/main/java/com/ds6/serviceimpl/UserServiceImpl.java:56-77 | the result is Login's, the same whatever the send does; the table is unchanged; after a failed authentication nothing is published and nothing is logged; after a success the "user.logged" record with the request email is accepted exactly when the send does not throw, and one audit log line is written |
| RegistrationHistory.FirstRegistrationWins | src/main/java/com/ds6/serviceimpl/UserServiceImpl.java:40-50 | over any run of registrations, a record already stored is never altered; a new email ends up stored exactly when some registration asked for it, with the record the first such registration built |
| RegistrationHistory.StoredPasswordsAreEncoded | src/main/java/com/ds6/serviceimpl/UserServiceImpl.java:44-50 | over any run of registrations from a well-keyed table, the table stays well-keyed, and each added email stores the encoder's output for the first request's password for that email |
| UserServiceProperties.LookupAfterRegister | src/main/java/com/ds6/serviceimpl/UserDetailsServiceImpl.java:27-40 | after a successful registration, the lookup yields (request email, encode(password), [role name]), or the constructor's IllegalArgument when the email is empty |
| UserServiceProperties.ReRegisterRejected | src/main/java/com/ds6/serviceimpl/UserServiceImpl.java:40-42 | registering an email that was just added fails with "Email already in use" and leaves the table as it was, whatever the new password and role |
| UserServiceProperties.LoginAfterRegister | src/main/java/com/ds6/serviceimpl/UserServiceImpl.java:56-77 | if the encoder matches a password against its own encoding, logging in with the registered email and password yields generateToken(email), with either not-found setting; an empty email fails with the rewrapped constructor failure |
| UserServiceProperties.WrongPasswordAfterRegister | src/main/java/com/ds6/serviceimpl/UserServiceImpl.java:58-60 | logging in with a password the encoder rejects against the stored encoding fails with BadCredentials (an empty email with the rewrapped constructor failure) |
| UserServiceProperties.UnknownEmailLoginFails | src/main/java/com/ds6/serviceimpl/UserDetailsServiceImpl.java:27-28 | logging in with an unregistered email fails with BadCredentials when not-found is hidden and with the lookup's UsernameNotFound error when it is not |
| UserServiceProperties.UnknownEmailLikeWrongPassword | src/main/java/com/ds6/serviceimpl/UserServiceImpl.java:58-60 | an unknown email and a wrong password for a registered email give the same login failure exactly when not-found is hidden |
| UserServiceProperties.RegisterLoginScenario | src/main/java/com/ds6/serviceimpl/UserServiceImpl.java:38-77 | a worked example: registration returns (id, a@x.com, STUDENT), the right password gives the token for a@x.com, a wrong one fails with BadCredentials, and registering a@x.com again fails with "Email already in use" |

## Left out

- Token generation (JwtServiceImpl.java) is the arbitrary function `generateToken` of the username. HS256 signing, base64 key decoding and the clock are not modelled, so the model makes no claim that expiry minus issue time equals the configured TTL.
- Token generation decodes the signing key on every call. A malformed or too-short key therefore makes every login throw after authentication and before the publish, so nothing is published. The total `generateToken` function does not model this failure.
- BCrypt is the arbitrary pair `encode` / `matches`. Salting, its cost factor and "the hash never equals the plaintext" are library properties, so they are not claimed.
- Spring's AuthenticationManager is not part of this model. It is stood in for by lookup, `matches` and the `hideUserNotFoundExceptions` setting. Its account-status checks are not modelled, because the three-argument user-details constructor marks the account as enabled and unlocked.
- `findByEmail` is taken to be an exact match on the email. Its case sensitivity depends on the database column's collation, which is not visible. The clauses that give the token subject and the audit payload as the request email rely on this.
- `userRepository.save` is taken to return the record it was given, so the response id is `freshId`. Spring Data saves a record whose id is already set by merging it and returning a copy. The entity's id mapping is not visible.
- Kafka delivery is asynchronous I/O. Only the synchronous outcome of `send` (accepted or thrown) is a parameter, and delivery after acceptance is not modelled.
- UUID.randomUUID is the parameter `freshId`, and its freshness is not assumed. The table is keyed by email, so a save that would overwrite another record with the same id is not modelled.
- Concurrent registrations and the database's unique constraint are not modelled, because the model covers one call at a time.
- The transaction boundaries (`@Transactional`, rollback) are not modelled.
- SecurityConfig.java (filter chain, stateless sessions, CSRF), AuthController.java (HTTP status mapping) and Bean-Validation of the request records are framework wiring and are not part of this model.
- Logging is modelled as the list of lines written. The logger's formatting of `{}` placeholders is written out as string concatenation.
