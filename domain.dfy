/** The entities the user service reads and writes: the persisted user record,
    its role label, its identifier, and the failures the service raises. */
module Domain {

  /** Java's java.util.UUID: two 64-bit halves. */
  datatype Uuid = Uuid(mostSigBits: bv64, leastSigBits: bv64)

  /** A constant of the role enum; `name` is what Role.name() returns. */
  datatype Role = Role(name: string)

  /** The persisted user record; `password` holds the encoder's output. */
  datatype User = User(id: Uuid, email: string, password: string, role: Role)

  /** The exceptions the service and its lookup throw. */
  datatype Error =
    | IllegalArgument(message: string)   // IllegalArgumentException
    | UsernameNotFound(message: string)  // UsernameNotFoundException
    | BadCredentials(message: string)    // BadCredentialsException of the password check
    | InternalAuthenticationService(message: string)  // any other lookup failure, as authentication rewraps it

  /** A value or the exception that replaced it. */
  datatype Result<+T> = Success(value: T) | Failure(error: Error)

  datatype Option<+T> = None | Some(value: T)

  /** The user table of the repository, keyed by email (what findByEmail searches on). */
  type UserTable = map<string, User>

  /** findByEmail(e) finds exactly the record whose email is e. */
  ghost predicate WellKeyed(users: UserTable)
  {
    forall email :: email in users ==> users[email].email == email
  }
}
