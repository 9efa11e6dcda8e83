/** The lookup Spring Security's authentication uses: find a user by email and
    project it to (username, encoded password, authorities). Read-only: it is
    a function of the user table. */
module UserDetailsServiceImpl {
  import opened Domain

  datatype GrantedAuthority = SimpleGrantedAuthority(authority: string)

  datatype UserDetails = UserDetails(username: string, password: string, authorities: seq<GrantedAuthority>)

  const USER_NOT_FOUND_PREFIX := "User not found with email: "
  const EMPTY_VALUES := "Cannot pass null or empty values to constructor"

  /** Spring's three-argument User constructor: it refuses an empty username. */
  function NewUserDetails(username: string, password: string, authorities: seq<GrantedAuthority>): Result<UserDetails>
  {
    if username == "" then Failure(IllegalArgument(EMPTY_VALUES))
    else Success(UserDetails(username, password, authorities))
  }

  /** loadUserByUsername: fails on a miss, and on a record whose email is empty
      (the details constructor refuses it); otherwise the details are the
      stored email, the stored (encoded) password unchanged and the single
      authority named after the stored role. */
  function LoadUserByUsername(users: UserTable, email: string): (r: Result<UserDetails>)
    ensures r.Failure? <==> email !in users || users[email].email == ""
    ensures email !in users ==> r.error == UsernameNotFound(USER_NOT_FOUND_PREFIX + email)
    ensures email in users && users[email].email == "" ==> r.error == IllegalArgument(EMPTY_VALUES)
    ensures r.Success? ==> r.value.username == users[email].email
    ensures r.Success? ==> r.value.password == users[email].password
    ensures r.Success? ==> |r.value.authorities| == 1
    ensures r.Success? ==> r.value.authorities[0].authority == users[email].role.name
    ensures r.Success? && WellKeyed(users) ==> r.value.username == email
  {
    if email !in users then
      Failure(UsernameNotFound(USER_NOT_FOUND_PREFIX + email))
    else
      var user := users[email];
      var authorities := [SimpleGrantedAuthority(user.role.name)];
      NewUserDetails(user.email, user.password, authorities)
  }
}
